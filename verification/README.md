# Verification of the navigation server's protocol core

A model, in Dafny, of the parts of the navigation server where bytes and states have to
agree: the generator of the NMEA2000 message classes, the J1939 address claim and the tables
behind it, the CAN writer, the VE.Direct, iKonvert, GSV, Shipmodul and Yacht Devices codecs and
state machines, the index of replayed logs, and the engine event log.

`dafny verify dfyconfig.toml` checks everything.

## How it is built

*The PGN generator is treated as a compiler.* `PgnFields` holds the field definitions,
`PgnLayout` the pass that lays them out (over segment objects, with their cached lengths),
`PgnEmit` the walks that emit statements, `PgnIr` the statements and what Python does with them,
`PgnProgram` the payload methods made of them. `PgnSegment` and `PgnValues` prove what the
emitted encode code computes, `PgnDecode` what the decode code assigns, `PgnExact` and
`PgnRoundTrip` exactly which values one segment carries, `PgnMessage`, `PgnCompiler` and
`PgnRepeated` extend this to whole messages, variable strings and repeated sets. `PgnInPlace`
is the encode method on its buffer; `PgnWire` says which byte of a message of numbers carries what,
and what any bytes received become. `PgnInstances`, `PgnThreeBytes` and `PgnRoute` compile
definitions that are shipped, compare the result with the generated classes, and say what these
classes carry; `PgnNumbers` and `PgnRanges` are what they share.

Those theorems are about the field lists an emission handles. What the emission as written does
with all the others is proved by running two objects side by side that differ in one attribute:
`PgnInterference` says which code cannot tell them apart, `PgnMisaligned` and `PgnUnsupported`
find the attribute in every segment that is not handled and show that at most one of the two
comes back, `PgnFrames`, `PgnTwoRuns`, `PgnTransfer` and `PgnUnfaithful` carry this through
whatever segments stand before and behind, and `PgnFaithful`, `PgnWholeRange`, `PgnSetSizes`,
`PgnSetPassage` and `PgnWholeSets` conclude exactly for which lists everything in range comes back;
`PgnCounted` is the exception of a counter that its own field could not carry.

Every emission has a flag, `corrected`. Off, the statements are the ones the generator writes.
On, the four emissions that do not do what they are for are replaced: the high half of a
two-slot bit-field, the second operand of two-slot integers and reserved scalars and of bit-fields with
one sub-field, the signed low half of 24-bit numbers, and the joining of `word` when the first
sub-field is reserved. The round trips are stated for both.

*Address claim* is one application (`AddressClaim`), then any number of them with the claims in
flight between them, as steps in any order (`ClaimNetwork`, `ClaimTermination`), then the
tables of a controller with several applications (`AddressTables`), then the classes that
implement all of it (`ActiveController`), whose methods are proved against those functions.

*The writer, readers and assemblers* are a function on values with its theorems, and a class whose
methods compute that function: `SocketCanWriter` with `WriterLog` and `WriterProgress`, `VEDirect`
with `VEDirectReader` and `VEDirectFaults`, `GsvAssembly`, `TickIndex`, `EngineEvents` with
`EngineObject`. The iKonvert handshake (`IKonvertHandshake`) is a state machine in which every
access to a shared variable is a step. `WireIds` and `Shipmodul` are the identifiers and the
sentence on the wire. `Bits` gives `&`, `|` and shifts on unbounded integers, `Struct` the packing
of integers.

Time is a parameter of every operation, in microseconds for the writer and in seconds elsewhere;
what other threads, the bus and the files do are parameters as well.

## Where the code is not what it is documented or meant to be

* Bit-fields and scalars over two struct slots are encoded as they are documented only for a part
  of the field lists and of the values. Exactly which lists carry their whole range is said by
  `PgnWholeRange.WholeRangeIffFaithful` and `PgnWholeSets.WholeSetIffFaithful`, exactly which values
  by `PgnExact.SubRoundTrip` and `PgnExact.ScalarThroughSlots`, and for shipped classes by
  `PgnInstances.AisRoundTrip` and `PgnThreeBytes.DcRoundTrip`.
* The decode of a two-slot bit-field that begins with a reserved sub-field raises, or takes its
  values from the word of an earlier field (`PgnDecode.ReservedFirstNeverJoins`).
* Every claim that reaches an application before its claim timer fires stops that timer, and only
  moving to another address starts one again: where it can keep its address, it becomes active
  only if no claim reaches it at all (`AddressClaim.ActiveIfUndisturbed`). So it does not after it
  kept its address (`AddressClaim.KeepingLosesTheTimer`), nor after its rival gave up
  (`AddressClaim.CannotClaimCancelsTheWinner`).
* A commanded address is not checked (`ClaimNetwork.CommandedNullAddressIsShared`). A change of
  address is applied only behind a broadcast ISO message; a second one before that raises
  (`ActiveController.TwoAddressedClaims`) and is lost unless it was of the same application
  (`AddressTables.SecondChangeIsLost`).
* An answer of the iKonvert that arrives before its event is armed is lost, and the thread waits
  without a timeout (`IKonvertHandshake.EarlyMessageIsLost`).
* `move_to_date` lands at least half an interval late (`TickIndex.MovesLandLate`).
* In a GSV group of n the sentence numbers k from 2 - n to 0, and only they, count as sentence
  n + k and can complete the group without it (`GsvAssembly.CountsAsAnother`,
  `GsvAssembly.EarlyNumbers`); a group of 0 sentences is never left
  (`GsvAssembly.EmptyGroupIsForever`).
* A VE.Direct HEX frame inside a line joins the pieces of two lines into one field
  (`VEDirectFaults.InterruptedLineIsGlued`); a block of more than 512 bytes loses a byte and, with it,
  usually its checksum (`VEDirectFaults.OverlongBlock`).
* With more than one command thread the iKonvert handshake is not safe
  (`IKonvertHandshake.SafeIffAlone`).
* A restart can lose the start time of a run (`EngineEvents.RestartRemembersTheStart`).
* The Shipmodul and Yacht Devices encoders write the destination where their decoders read the
  source (`Shipmodul.SentenceRoundTrip`, `WireIds.YachtIdRoundTrip`).

## Model

| member | source | states |
|---|---|---|
| `PgnEmit.GenEncodeValueSetSegment` | navigation_server/code_generation/pgn_python_gen.py:558-658 | the loop that writes the encode code of a numeric segment, or dies of a list index or a missing variable, computes the recursive emission all results below are about |
| `PgnEmit.GenDecodeValueSetSegment` | navigation_server/code_generation/pgn_python_gen.py:446-494 | the loop that writes the decode code of a numeric segment computes the decode emission |
| `PgnSegment.SlotAlignment` | navigation_server/code_generation/pgn_python_gen.py:562-658 | at every prefix of a segment `val_encode` is as long as the running decode index, if and only if the segment has no two-slot integer, two-slot reserved scalar or two-slot bit-field of one sub-field; the corrected emission is aligned for all segments |
| `PgnSegment.MisalignedAt` | navigation_server/code_generation/pgn_python_gen.py:590-594 | the first such field is where alignment is lost: the prefix that ends with it has one operand too many or too few |
| `PgnSegment.EmitAlignedFields` | navigation_server/code_generation/pgn_python_gen.py:568-645 | the walk over the attributes of a list of aligned fields succeeds and appends the code of each field, with as many operands as slots, wherever the list starts |
| `PgnSegment.EmitMisalignedField` | navigation_server/code_generation/pgn_python_gen.py:595-625 | a two-slot integer adds three operands for its two slots, the other misaligned kinds add one |
| `PgnValues.SegmentComputesSlotValues` | navigation_server/code_generation/pgn_python_gen.py:558-658 | the emitted encode code of an aligned segment runs without an exception on every object, leaves the object alone, and its operands hold exactly the raw integer of each field, or its halves, in slot order |
| `PgnValues.OrInSub` | navigation_server/code_generation/pgn_python_gen.py:637-639 | OR-ing a masked, shifted sub-field into the word adds it: no bit of the sub-fields before it is touched |
| `Bits.OrBit` | navigation_server/code_generation/pgn_python_gen.py:637-639 | a bit of `a | b` is set if and only if it is set in one of them, also for negative integers |
| `Bits.AndBit` | navigation_server/code_generation/pgn_python_gen.py:479-494 | a bit of `a & b` is set if and only if it is set in both |
| `PgnDecode.RunDecodeFields` | navigation_server/code_generation/pgn_python_gen.py:446-494 | the emitted decode code assigns exactly the value its field has in the slots to every named attribute, field by field |
| `PgnDecode.ReservedFirstNeverJoins` | navigation_server/code_generation/pgn_python_gen.py:446-494 | a two-slot bit-field whose first sub-field is reserved while a later one is not: `word` is joined only at sub-field 0 and reserved sub-fields are skipped, so that the emitted decode raises if and only if no earlier field of the method assigned `word`; if one did, the sub-fields are silently taken from that stale word |
| `PgnExact.SubRoundTrip` | navigation_server/code_generation/pgn_python_gen.py:479-494 | a sub-field value comes back from the slots if and only if it fits its width and, in a two-slot bit-field as emitted, lies in the low 16 bits of the word |
| `PgnExact.WordThroughSlots` | navigation_server/code_generation/pgn_python_gen.py:640-645 | a bit-field word comes back whole, except that a two-slot one as emitted comes back modulo 2^16; with `(word >> 16) & 0xFF` as the high half it comes back whole |
| `PgnExact.BitFieldRoundTrip` | navigation_server/code_generation/pgn_python_gen.py:627-645 | struct accepts every bit-field, and all its named sub-fields are recovered if and only if each of them is in its range |
| `PgnExact.ScalarThroughSlots` | navigation_server/code_generation/pgn_python_gen.py:454-457 | a scalar comes back from its slots if and only if it is in the range of its format; a signed 24-bit one as emitted, with both halves range-checked as signed, only from 0 to 2^23 with a low half below 32768 |
| `PgnExact.ScalarRoundTrip` | navigation_server/code_generation/pgn_python_gen.py:595-625 | a scalar attribute survives encode and decode if and only if its raw integer fits and, for a float, is neither -1 nor the invalid value |
| `PgnRoundTrip.FieldsRoundTrip` | navigation_server/code_generation/pgn_python_gen.py:446-658 | for a list of distinctly named fields struct accepts every value and every attribute is recovered, if and only if every value is in the range its field carries; no other attribute changes |
| `PgnRoundTrip.ReservedBitsCarryDefault` | navigation_server/code_generation/pgn_python_gen.py:570-589 | a reserved sub-field leaves with all ones, its default, if and only if it is not, as emitted, above the low 16 bits of a two-slot bit-field |
| `PgnRoundTrip.ReservedScalarCarriesDefault` | navigation_server/code_generation/pgn_python_gen.py:590-594 | an aligned reserved scalar always packs and leaves as its default |
| `PgnRoundTrip.SegmentRoundTrip` | navigation_server/code_generation/pgn_python_gen.py:446-658 | the emitted encode code, pack, unpack and the emitted decode code of one segment, run one after the other from any state, recover all attributes if and only if all values are in range |
| `Struct.PackUnpack` | navigation_server/code_generation/pgn_python_gen.py:448 | `unpack_from` of what `pack_into` wrote gives the packed integers back, signed and unsigned, and the bytes have the size of the format |
| `Struct.PackedBytes` | navigation_server/code_generation/nmea2000_meta.py:231-231 | little-endian: byte i of slot k, which begins behind the slots before it, is the packed value divided by 256^i, modulo 256, also for negative values |
| `Struct.UnpackedValue` | navigation_server/code_generation/nmea2000_meta.py:231-231 | and in any bytes an unsigned slot is the sum of its bytes times 256^i, a signed one the two's complement of that |
| `Struct.PackSucceeds` | navigation_server/code_generation/pgn_python_gen.py:654-658 | packing succeeds exactly on as many values as slots, each in the range of its slot |
| `PgnText.FixedTextRoundTrip` | navigation_server/nmea2000_datamodel/generated_base.py:51-78 | a fixed-length string that was inserted comes back if and only if it is clean and not longer than the field |
| `PgnText.VarTextRoundTrip` | navigation_server/nmea2000_datamodel/generated_base.py:81-94 | a variable-length string that was inserted comes back if and only if it is clean, and the reported length is the number of bytes written |
| `PgnText.CleanStringIsClean` | navigation_server/nmea2000_datamodel/generated_base.py:51-78 | whatever `clean_string` returns is clean, so that it can be inserted and read back, and no longer than what was cleaned; cleaning it again changes nothing |
| `PgnText.CleanStringIs` | navigation_server/nmea2000_datamodel/generated_base.py:51-78 | what `clean_string` makes of any bytes: those before the first 0xFF or NUL, without the blanks and "@" at their end, or nothing if one of them is not printable |
| `PgnText.VarTextRead` | navigation_server/nmea2000_datamodel/generated_base.py:81-94 | what is read of any bytes: the first is the length reported, the text is the cleaned rest behind the encoding, or empty if the encoding is not 1 or the length 2 or less |
| `PgnText.InsertStringSplices` | navigation_server/nmea2000_datamodel/generated_base.py:110-124 | `insert_string` changes exactly `length` bytes, to the cut text padded with 0xFF |
| `PgnText.InsertStringBytes` | navigation_server/nmea2000_datamodel/generated_base.py:110-124 | byte for byte: the text, 0xFF behind it, and the buffer as it was outside the field |
| `PgnText.InsertVarStrSplices` | navigation_server/nmea2000_datamodel/generated_base.py:97-107 | `insert_var_str` changes exactly the header and the text, and fails on no text that fits |
| `PgnText.InsertVarStrBytes` | navigation_server/nmea2000_datamodel/generated_base.py:97-107 | byte for byte: the length of the whole, encoding 1, the text, and the buffer as it was outside them |
| `PgnProgram.Groups` | navigation_server/code_generation/nmea2000_meta.py:319-403 | the segments in order are the fields in order, each segment a run of numbers or a single string |
| `PgnProgram.GroupsAreMaximal` | navigation_server/code_generation/nmea2000_meta.py:319-373 | consecutive numeric fields share a segment: no two neighbouring segments are both of numbers |
| `PgnProgram.LayoutCovers` | navigation_server/code_generation/nmea2000_meta.py:313-419 | each `start_byte` is the sum of the segment lengths before it, so that segments are disjoint and cover [0, static_size) |
| `PgnDecodeSegment.DecodeSegment.Length` | navigation_server/code_generation/nmea2000_meta.py:268-288 | the cached length is the length of the finished segment, provided that nothing is added after the first read |
| `PgnDecodeSegment.DecodeSegment.AddDecodeField` | navigation_server/code_generation/nmea2000_meta.py:239-243 | the format grows; a cached length is not invalidated |
| `PgnDecodeSegment.DecodeSegment.SetString` | navigation_server/code_generation/nmea2000_meta.py:251-266 | a string segment takes its attribute, and its length only when it is of fixed length |
| `PgnLayout.FieldSetMeta.AnalyzeAttributes` | navigation_server/code_generation/nmea2000_meta.py:313-419 | the imperative pass over the field list, with its segment objects and cached lengths, builds exactly the layout; no length is read before its segment is complete; `static_size` is the sum of the lengths |
| `PgnLayout.FieldSetMeta.AnalyzeField` | navigation_server/code_generation/nmea2000_meta.py:319-403 | one turn of that pass keeps the segments equal to the layout of the fields seen so far |
| `PgnLayout.FieldSetMeta.OpenSegment` | navigation_server/code_generation/nmea2000_meta.py:323-332 | a field of another kind opens a segment behind the bytes of the ones before |
| `PgnLayout.FieldSetMeta.GrowSegment` | navigation_server/code_generation/nmea2000_meta.py:334-373 | a number behind numbers grows the segment being filled and moves the decode index by its slots |
| `PgnLayout.FieldSetMeta.SumLengths` | navigation_server/code_generation/nmea2000_meta.py:415-419 | static_size is the sum of the lengths of all segments |
| `PgnMessage.EncodeGroup` | navigation_server/code_generation/pgn_python_gen.py:354-358 | the generated encode of a segment writes that segment's bytes at its place and nothing else, or raises exactly when they do not exist |
| `PgnMessage.DecodeGroup` | navigation_server/code_generation/pgn_python_gen.py:313-320 | the generated decode of a segment reads its bytes back wherever they stand and moves the cursor past them |
| `PgnCompiler.EncodeGroups` | navigation_server/code_generation/pgn_python_gen.py:340-366 | absolute-offset encode and running-cursor encode of all segments both write the payload in one piece |
| `PgnCompiler.DecodeGroups` | navigation_server/code_generation/pgn_python_gen.py:311-328 | the running-cursor decode reads exactly the bytes the encode wrote |
| `PgnCompiler.PayloadLength` | navigation_server/code_generation/nmea2000_meta.py:413-419 | a payload without variable strings has static_size bytes |
| `PgnCompiler.CompileSucceeds` | navigation_server/code_generation/pgn_python_gen.py:307-440 | the generator gets through every supported field list |
| `PgnCompiler.FixedMessageRoundTrip` | navigation_server/code_generation/pgn_python_gen.py:307-368 | for every list of numbers and fixed strings with distinct names that the emission (as written, or corrected) handles, and every object: the generated decode of the generated encode recovers every named attribute if and only if each value is in the range its field carries; the buffer has static_size bytes. Which lists the emission as written handles, and what it does with the others, is said by `PgnWholeRange.WholeRangeIffFaithful` |
| `PgnMisaligned.TooFewOperands` | navigation_server/code_generation/pgn_python_gen.py:590-625 | a segment with a misaligned field and no two-slot integer never passes an object, whatever its values: it has fewer operands than slots |
| `PgnMisaligned.IntegerNeverBoth` | navigation_server/code_generation/pgn_python_gen.py:595-625 | of two objects that differ in the first two-slot integer of a segment, 0 in one and 65536 in the other, at most one comes back: behind it the operands no longer meet their slots, and the one in its high slot is not the attribute |
| `PgnMisaligned.UnjoinedNeverBoth` | navigation_server/code_generation/pgn_python_gen.py:450-456 | of two objects that differ in a sub-field of a two-slot bit-field that is not joined at most one comes back |
| `PgnUnsupported.GroupNeverBoth` | navigation_server/code_generation/pgn_python_gen.py:446-658 | every segment of numbers that the emission as written does not handle is of one of these kinds: no object passes it, or of two objects that differ in one attribute, in a way the segment's own definition says, at most one comes back |
| `PgnUnfaithful.NeverBoth` | navigation_server/code_generation/pgn_python_gen.py:307-440 | the same through any list of segments, of fixed or variable size and whatever stands before and behind: up to the first segment that is not handled two such objects are written and read alike, and nothing behind it makes up for the loss |
| `PgnWholeRange.WholeRangeIffFaithful` | navigation_server/code_generation/pgn_python_gen.py:307-658 | fixed messages as emitted, over all lists of well-formed fields with distinct names: every object with its values in the defined range comes back if and only if every field is a string, fits one slot, is a 24-bit unsigned scaled number, or is a two-slot bit-field of more than one sub-field that begins with a named one, unless all are reserved, and has no name above bit 15 |
| `PgnWholeRange.UnhandledLoses` | navigation_server/code_generation/pgn_python_gen.py:558-658 | for every list the emission as written does not handle an object in range that does not come back, whatever it is decoded into |
| `PgnWholeRange.UnfaithfulLoses` | navigation_server/code_generation/pgn_python_gen.py:558-658 | and for every list it handles that has another field: the value lost is a low half that struct takes for a negative number, or bits above the low half of a word |
| `PgnInPlace.EncodePayload` | navigation_server/code_generation/pgn_python_gen.py:343-366 | the encode method as it runs, on one zeroed array that it fills in place, computes that payload, and raises exactly when it has none |
| `PgnInPlace.RunInPlace` | navigation_server/code_generation/pgn_python_gen.py:354-358 | running the statements on the array is the same as running them on its contents |
| `PgnInPlace.PutText` | navigation_server/nmea2000_datamodel/generated_base.py:110-124 | `insert_string` on the array |
| `PgnInPlace.GeneratedOpsFit` | navigation_server/code_generation/pgn_python_gen.py:348-358 | every statement generated for a fixed message writes inside [0, static_size) |
| `PgnInPlace.DecodePayload` | navigation_server/code_generation/pgn_python_gen.py:311-328 | the decode method as it runs |
| `PgnRepeated.EncodeAllItems` | navigation_server/code_generation/pgn_python_gen.py:668-673 | the items are written one behind the other at the running start_byte |
| `PgnRepeated.DecodeAllItems` | navigation_server/code_generation/pgn_python_gen.py:546-556 | the items come back in order, as many as were written, and the decode cursor ends where the encode cursor did |
| `PgnRepeated.VariableItemPuts` | navigation_server/code_generation/pgn_python_gen.py:437-438 | an item class of variable size returns the start_byte behind what it wrote |
| `PgnRepeated.FixedItemPuts` | navigation_server/code_generation/pgn_python_gen.py:360-362 | an item class of fixed size returns its static size added to where it began, which is behind what it wrote |
| `PgnRepeated.RepeatedMessageRoundTrip` | navigation_server/code_generation/pgn_python_gen.py:370-440 | for every field set with any number of variable strings and a repeated set that the emission (as written, or corrected) handles, and every message whose counter counts its items and whose payload fits the buffer: decoding into a fresh object recovers every attribute and every item in order, if and only if all values are in range (the counter not being its invalid value); the cursor then ends at the end of the payload. The other sets are the subject of `PgnWholeSets.WholeSetIffFaithful` |
| `PgnWholeSets.WholeSetIffFaithful` | navigation_server/code_generation/pgn_python_gen.py:370-440 | messages with variable strings and a repeated set as emitted: every message in range that fits the buffer comes back if and only if every field, own or repeated, is of the kinds listed for `PgnWholeRange.WholeRangeIffFaithful` |
| `PgnWholeSets.NotFaithfulLoses` | navigation_server/code_generation/pgn_python_gen.py:370-440 | the half that constructs: for every set with another field, a message in range that does not come back |
| `PgnWholeSets.FaithfulComesBack` | navigation_server/code_generation/pgn_python_gen.py:370-440 | the other half, for any field that counts the items and any number of them: with fields of these kinds every message in range that fits the buffer comes back as emitted |
| `PgnCounted.CounterNeedNotBeFaithful` | navigation_server/code_generation/pgn_python_gen.py:546-556 | with the counter in a three-byte field the equivalence is false: the buffer bounds the number of items, so that a count in the low 20 bits of a three-byte bit-field always comes back although such a field is not of these kinds |
| `PgnNumbers.NumbersRun` | navigation_server/code_generation/pgn_python_gen.py:307-368 | a compiled message of numbers: encoding packs the slot values of all fields, or raises where struct does, and decoding sets every named attribute to what its slots hold, also when that is not what was encoded |
| `PgnWire.NumbersOnWire` | navigation_server/code_generation/pgn_python_gen.py:654-658 | in the payload of any compiled message of numbers byte i of slot k, which begins behind the slots before it, is the value of the slot divided by 256^i, modulo 256 |
| `PgnWire.NumbersRead` | navigation_server/code_generation/pgn_python_gen.py:446-494 | any bytes of the right number, whoever wrote them, are decoded without an exception, field by field from the slots they make |
| `PgnWire.BitsOnWire` | navigation_server/code_generation/pgn_python_gen.py:627-645 | wherever a one-slot bit-field stands in a message, sub-field i is found at its bit offset in the number its bytes make, least significant first; a reserved one is all ones |
| `PgnInstances.AisEncodeCode` | navigation_server/generated/nmea2000_classes_gen.py:2852-2873 | compiling the definition of PGN 129038 gives, statement by statement, the struct format, the encode code and the operands of its shipped class |
| `PgnInstances.AisDecodeCode` | navigation_server/generated/nmea2000_classes_gen.py:2843-2845 | and the decode code of its two-slot bit-field |
| `PgnInstances.TransceiverInformationIsLost` | navigation_server/generated/nmea2000_classes_gen.py:2831-2873 | of every object whatsoever that the shipped class encodes, its decode makes the transceiver information 0 and the communication state its low 16 bits |
| `PgnInstances.AisRoundTrip` | navigation_server/generated/nmea2000_classes_gen.py:2831-2873 | compiling the whole of PGN 129038, encoding an object and decoding the bytes recovers all attributes if and only if every value is in its written-out range and, as emitted, the communication state is below 2^16 and the transceiver information 0 |
| `PgnThreeBytes.DcEncodeCode` | navigation_server/generated/nmea2000_classes_gen.py:1499-1519 | compiling the whole of PGN 127751 gives the struct format, the encode code and the operands of its shipped class |
| `PgnThreeBytes.ExtendedEncodeCode` | navigation_server/generated/nmea2000_classes_gen.py:6442-6462 | the same for PGN 130316 |
| `PgnThreeBytes.ThreeByteCode` | navigation_server/generated/nmea2000_classes_gen.py:1513-1518 | the code of a 24-bit float is the same for signed and unsigned; the formats differ |
| `PgnThreeBytes.DcRoundTrip` | navigation_server/generated/nmea2000_classes_gen.py:1499-1519 | encoding and decoding the whole of PGN 127751 recovers all attributes if and only if its two bytes are bytes, its voltage is 16 bits, and, as emitted, its current is in [0, 2^23) with a low half below 32768: no negative current, and not even "not available"; corrected, every current that does not itself mean not available |
| `PgnWire.DcOnWire` | navigation_server/generated/nmea2000_classes_gen.py:1499-1519 | the eight bytes of PGN 127751, written out: sequence, connection, the voltage and the current with the low byte first, and 0xFF |
| `PgnWire.DcRead` | navigation_server/generated/nmea2000_classes_gen.py:1499-1508 | and what any eight bytes received as that PGN become, written out |
| `PgnThreeBytes.NotAvailableRaises` | navigation_server/generated/nmea2000_classes_gen.py:1499-1519 | the shipped class cannot encode an object whose current is not available, whatever its other values |
| `PgnThreeBytes.ExtendedRoundTrip` | navigation_server/generated/nmea2000_classes_gen.py:6442-6462 | encoding and decoding the whole of PGN 130316 recovers all attributes if and only if each is in its range, the unsigned 24-bit temperature over all of its own |
| `PgnRoute.RouteRoundTrip` | navigation_server/generated/nmea2000_classes_gen.py:4034-4071 | a route of PGN 129285 that fits the buffer comes back with all waypoints in order if and only if its words are 16 bits, its count is not 65535, its bit-fields fit, its texts are clean and short and its positions are valid 32-bit numbers |
| `AddressClaim.NewAddressIsFirstFree` | navigation_server/can_interface/nmea2k_application.py:85-92 | the address handed out is the first one from the index on that nobody on the network uses, and the index moves behind it; 254 exactly if there is none |
| `AddressClaim.PoolNeverRepeats` | navigation_server/can_interface/nmea2k_application.py:57-92 | over any requests and any networks, addresses are handed out in strictly increasing order, never twice, at most 2 * max_applications + 1 times, and each lies in [first, first + 2 * max_applications] |
| `AddressClaim.WholePoolIsHandedOut` | navigation_server/can_interface/nmea2k_application.py:57-92 | with nobody else on the network all of them are handed out, one after the other from the first |
| `AddressClaim.ClaimOutcome` | navigation_server/can_interface/nmea2k_application.py:258-296 | what a claim does, in every case: a lower NAME makes the application claim a free pool address, or say that it cannot and stop; a higher NAME is answered and the address kept; an equal NAME stops it; anything else moves nothing |
| `AddressClaim.ClaimReceipt` | navigation_server/can_interface/nmea2k_application.py:258-304 | a claim never changes the NAME or the pool, and the pool index never goes back |
| `AddressClaim.ClaimStartsTheTimer` | navigation_server/can_interface/nmea2k_application.py:219-241 | claiming sends one broadcast claim of the own address and NAME and starts the timer, which makes the application active when it fires; a stopping application does neither |
| `AddressClaim.CommandOutcome` | navigation_server/can_interface/nmea2k_application.py:321-329 | a commanded address for another NAME changes nothing and sends nothing; for the own NAME it is taken and claimed, and the timer makes the application active, unless it is stopping |
| `AddressClaim.ActiveIfUndisturbed` | navigation_server/can_interface/nmea2k_application.py:219-304 | an application that claimed its address, through any claims that do not defeat it and ISO requests: it keeps its address, and its timer is still there to make it active if and only if no claim reached it |
| `AddressClaim.KeepingLosesTheTimer` | navigation_server/can_interface/nmea2k_application.py:264-296 | so keeping the address in a conflict cancels the claim timer and starts none: whatever claims of higher NAMEs and ISO requests follow, the application stays in the claiming state |
| `AddressClaim.CannotClaimCancelsTheWinner` | navigation_server/can_interface/nmea2k_application.py:264-267 | and so does the cannot-claim message of the loser, addressed to the winner although it does not concern its address |
| `ClaimNetwork.StepKeepsInv` | navigation_server/can_interface/nmea2k_application.py:258-304 | every step of a network of any number of applications keeps: two online ones that share an address have a claim of it in flight from one to the other |
| `ClaimNetwork.AddressesAreDisputedOrDistinct` | navigation_server/can_interface/nmea2k_application.py:258-304 | over every run with any order of events and deliveries and any knowledge of the network: online applications that share an address have a claim in flight, so with nothing in flight online addresses are pairwise distinct |
| `ClaimNetwork.OnlyLowerNamesMove` | navigation_server/can_interface/nmea2k_application.py:274-296 | a step moves or stops an application only by a command for its NAME, or by delivering the claim of one with a lower NAME |
| `ClaimNetwork.OnlyTheNamedNodeObeys` | navigation_server/can_interface/nmea2k_application.py:321-329 | a commanded address reaches every node: the one with its NAME takes the address and claims it to all others; no other node changes or sends |
| `ClaimNetwork.ClaimsGoToEverybody` | navigation_server/can_interface/nmea2k_application.py:219-230 | a claim, sent when the bus is ready or as the answer to an ISO request, is broadcast with the address and NAME of its node to every other node; nothing else changes but the timer of the one that starts |
| `ClaimNetwork.LowestNameNeverMoves` | navigation_server/can_interface/nmea2k_application.py:274-296 | through every run in which no command is for it, the application with the lowest NAME keeps its address and stays online |
| `ClaimNetwork.CommandedNullAddressIsShared` | navigation_server/can_interface/nmea2k_application.py:321-329 | a commanded address is not checked: two applications commanded to 254, or to 255, share it for good with nothing in flight, because the base controller drops their claims unseen |
| `ClaimNetwork.UnseenClaims` | navigation_server/nmea2000/nmea2k_controller.py:112-119 | claims sent from 254 and 255 change nothing at the receiver |
| `ClaimTermination.DeliveryDecreases` | navigation_server/can_interface/nmea2k_application.py:258-304 | every delivery decreases a measure made of the moves left in all pools and the NAME ranks of the claims in flight |
| `ClaimTermination.DeliveriesEnd` | navigation_server/can_interface/nmea2k_application.py:57-92 | claims, counter-claims and moves come to an end after at most that many deliveries, in any order; nothing is in flight then and online addresses are distinct |
| `AddressTables.RemoveFirst` | navigation_server/can_interface/nmea2k_can_interface.py:140-144 | `list.remove` takes one occurrence away |
| `AddressTables.SwapKeepsEveryApplication` | navigation_server/can_interface/nmea2k_active_controller.py:204-217 | applying an address change keeps device register, index and filter in step, and every other application reachable, if and only if no other local application owns the new address; the register loses the old address, has the application at the new one, and is otherwise as before |
| `AddressTables.AddKeepsSettled` | navigation_server/can_interface/nmea2k_active_controller.py:195-202 | adding an application at an unused address keeps all tables consistent, also while a change is pending |
| `AddressTables.MoveKeepsConsistent` | navigation_server/can_interface/nmea2k_active_controller.py:210-212 | between the change of an address and its application the pending change is the only difference |
| `AddressTables.ApplyKeepsConsistent` | navigation_server/can_interface/nmea2k_active_controller.py:265-267 | a pending change can always be applied, and brings every table to the current addresses if and only if the new address belongs to no other local application |
| `AddressTables.ApplySettles` | navigation_server/can_interface/nmea2k_active_controller.py:264-271 | behind a broadcast ISO message a pending change is applied, and nothing is pending |
| `AddressTables.TablesFollowAddresses` | navigation_server/can_interface/nmea2k_active_controller.py:195-271 | over every run of additions, proxies that come and go, claims addressed to an application (after which nothing is applied) and broadcast ISO messages (after which a pending change is), in which no change is made while another is pending: the index, the local part of the device register and the filter without 255 hold exactly the addresses the applications are registered at, each once, and each address leads to its application; they are the current addresses but for one application whose change is pending, and behind a broadcast ISO message without exception |
| `AddressTables.SecondChangeIsLost` | navigation_server/can_interface/nmea2k_active_controller.py:204-217 | a second change while one is pending raises after the address was set; when the pending change is applied the tables follow the addresses again if and only if both changes were of the same application; another one stays registered where it is not, and is not registered where it is |
| `ActiveController.TwoAddressedClaims` | navigation_server/can_interface/nmea2k_active_controller.py:251-262 | the input that does it: two claims, each addressed to a local application and from a lower NAME, with no broadcast in between; the second raises, and behind the next broadcast that application is still registered at its old address |
| `ActiveController.ApplicationPool.GetNewAddress` | navigation_server/can_interface/nmea2k_application.py:85-92 | the loop over the pool, against its specification |
| `ActiveController.Controller.AddApplication` | navigation_server/can_interface/nmea2k_active_controller.py:195-202 | the application list and the three tables grow by the application |
| `ActiveController.Controller.RemoveApplicationIndex` | navigation_server/can_interface/nmea2k_active_controller.py:214-217 | the three tables lose the old address |
| `ActiveController.Controller.ApplyChange` | navigation_server/can_interface/nmea2k_active_controller.py:204-208 | the tables are swapped and the pending change is cleared |
| `ActiveController.Controller.CheckDevice` | navigation_server/nmea2000/nmea2k_controller.py:98-110 | an unknown sender becomes a proxy; a known one is left alone |
| `ActiveController.Controller.ProcessAddressedClaim` | navigation_server/can_interface/nmea2k_active_controller.py:253-262 | `process_msg` for a claim addressed to a local application: the application does what the specification of the claim says, and a change of its address stays pending, or raises if one was |
| `ActiveController.Controller.ProcessBroadcastClaim` | navigation_server/can_interface/nmea2k_active_controller.py:263-271 | `process_msg` for a broadcast claim from the address of a local application: the same, and behind it the pending change is applied unless the application raised |
| `ActiveController.Controller.DeliverClaim` | navigation_server/can_interface/nmea2k_active_controller.py:257-257 | the part before the pending change is applied |
| `ActiveController.Controller.Stop` | navigation_server/can_interface/nmea2k_active_controller.py:165-173 | all applications are in their stop state |
| `ActiveController.Application.AddressClaimReceipt` | navigation_server/can_interface/nmea2k_application.py:258-296 | the method over all its branches: new state, messages sent, pending change, stop of the controller, and the one case in which it raises |
| `ActiveController.Application.ChangeAddress` | navigation_server/can_interface/nmea2k_application.py:298-304 | raises exactly if a change is pending, with the address already changed; otherwise claims the new address and records the old one |
| `ActiveController.Application.SendAddressClaim` | navigation_server/can_interface/nmea2k_application.py:219-225 | sends the claim and starts the timer unless stopping |
| `ActiveController.Application.AddressClaimDelay` | navigation_server/can_interface/nmea2k_application.py:232-241 | the timer that fires makes the application active |
| `ActiveController.Application.CommandedAddressRequest` | navigation_server/can_interface/nmea2k_application.py:321-329 | only the matching NAME is moved, to the address in the command; with another NAME the application and what was sent stay as they are |
| `WriterLog.WritesArePaced` | navigation_server/can_interface/nmea2k_can_interface.py:435-488 | in a history whose writes are spaced except the first of each burst, and whose bursts have five, any n + 1 consecutive writes take at least floor(4 n / 5) pauses |
| `SocketCanWriter.Writer.NRun` | navigation_server/can_interface/nmea2k_can_interface.py:416-492 | the loop of the thread, with retries, bursts, pauses and its two exits, computes the specification of a run; the message counter equals the number of attempts |
| `SocketCanWriter.Writer.Turned` | navigation_server/can_interface/nmea2k_can_interface.py:427-446 | one turn: fetch or retry, burst size, pacing sleep |
| `SocketCanWriter.Writer.SendBurst` | navigation_server/can_interface/nmea2k_can_interface.py:447-488 | the inner loop |
| `SocketCanWriter.Writer.FetchInBurst` | navigation_server/can_interface/nmea2k_can_interface.py:480-488 | the pause and the fetch that does not wait |
| `SocketCanWriter.Writer.Send` | navigation_server/can_interface/nmea2k_can_interface.py:456-460 | one attempt is counted and recorded |
| `SocketCanWriter.Writer.Arrive` | navigation_server/can_interface/nmea2k_can_interface.py:302-317 | frames put by other threads: as many as the queue has room for are accepted and queued, the first ones, in order; the others are turned away |
| `SocketCanWriter.AcceptTakes` | navigation_server/can_interface/nmea2k_can_interface.py:302-317 | in the specification of a run likewise: exactly the first min(frames, room) frames are taken |
| `WriterProgress.TurnAttempts` | navigation_server/can_interface/nmea2k_can_interface.py:427-488 | a turn that has a frame, held, queued or arriving, attempts the first of them; if the bus takes what it is given, at least one is sent and the thread goes on |
| `WriterProgress.UnhurriedTurn` | navigation_server/can_interface/nmea2k_can_interface.py:427-460 | while the queue does not fill up everything that arrives is accepted and one frame is attempted, exactly when the minimum interval since the last attempt is over |
| `WriterProgress.NothingIsTurnedAway` | navigation_server/can_interface/nmea2k_can_interface.py:302-317 | over every run that offers no more frames than there is room for without a burst, whatever the bus does, all are accepted in the order in which they were offered |
| `WriterProgress.HurriedTurn` | navigation_server/can_interface/nmea2k_can_interface.py:435-488 | with a full queue and a bus that takes them five frames go out in one turn, the first without waiting |
| `WriterProgress.EveryFrameIsSent` | navigation_server/can_interface/nmea2k_can_interface.py:416-492 | after every run that left the thread going, every frame accepted so far is sent, in order and before any other, within as many turns of a bus that takes what it is given as frames are waiting, whatever arrives meanwhile |
| `SocketCanWriter.RunIsGood` | navigation_server/can_interface/nmea2k_can_interface.py:416-492 | every run keeps the invariant behind the next two rows, from any state that has it |
| `SocketCanWriter.WriterConserves` | navigation_server/can_interface/nmea2k_can_interface.py:423-492 | in every run, whatever arrives and whatever the bus does: frames accepted are frames sent, then the one held for retry, then the queue, in order; a failed frame is the next one attempted; the thread goes on with at most 20 consecutive errors and gives up at the 21st; a burst never finds the queue empty |
| `SocketCanWriter.WriterPaces` | navigation_server/can_interface/nmea2k_can_interface.py:435-488 | in an error-free run any n + 1 consecutive writes take at least floor(4 n / 5) times the shorter of the minimum interval and 2 ms |
| `VEDirect.FeedConcat` | navigation_server/couplers/vedirect_coupler.py:161-188 | reading is the same however the bytes are cut into reads |
| `VEDirect.FeedLine` | navigation_server/couplers/vedirect_coupler.py:109-128 | a key, a value and a line end leave the reader ready for the next key with the field in its dictionary |
| `VEDirect.FeedBlock` | navigation_server/couplers/vedirect_coupler.py:129-138 | after the checksum byte the dictionary goes out, waits in the reader, or is kept for the next block |
| `VEDirect.FeedFrame` | navigation_server/couplers/vedirect_coupler.py:139-146 | a HEX frame between blocks goes out whole and resets checksum and buffer |
| `VEDirect.ItemsAreRead` | navigation_server/couplers/vedirect_coupler.py:90-188 | any sequence of blocks with good or bad checksums and HEX frames between them, without overflow, the output queue being full or not at each of them: a dictionary goes out at every good checksum that finds room, and holds all fields completed since the last one went out |
| `VEDirect.BlocksComeBack` | navigation_server/couplers/vedirect_coupler.py:90-188 | printing any blocks with correct checksums, each of at most 512 bytes, with HEX frames between them, and reading the bytes gives exactly those dictionaries and frames, in order, and leaves the reader as at the start |
| `VEDirect.OneFieldBlock` | navigation_server/couplers/vedirect_coupler.py:47-50 | the bytes of a block with one field, written out |
| `VEDirectFaults.FrameAnywhere` | navigation_server/couplers/vedirect_coupler.py:101-146 | a HEX frame is taken in the middle of a key, a value or between blocks: what goes out is all that is in the buffer up to its end, the checksum starts again, and key and value are kept as far as they were read |
| `VEDirectFaults.InterruptedLineIsGlued` | navigation_server/couplers/vedirect_coupler.py:101-146 | so what was read of a key or a value before the frame is put before that of the next line, under whose joined key the joined value is stored; the rest of the interrupted line is lost |
| `VEDirectFaults.OverflowLosesOneByte` | navigation_server/couplers/vedirect_coupler.py:90-97 | the byte that finds the buffer full, whatever it is, is as if it had not come, and the buffer is empty behind it |
| `VEDirectFaults.OverlongBlock` | navigation_server/couplers/vedirect_coupler.py:90-138 | a block that fills the buffer inside a value: the field lacks that byte, the checksum is tested without it, and so, unless the byte is 0, a block with a correct checksum is not delivered and its fields stay for the next one |
| `VEDirectReader.Vedirect.Input` | navigation_server/couplers/vedirect_coupler.py:90-148 | the method on its 512-byte array, with the overflow branch, against the specification |
| `VEDirectReader.Vedirect.OneByte` | navigation_server/couplers/vedirect_coupler.py:161-188 | one byte of the loop: timestamp, output, and what a full queue keeps |
| `VEDirectReader.Vedirect.Run` | navigation_server/couplers/vedirect_coupler.py:150-188 | the reading loop over any bytes |
| `IKonvertHandshake.StepKeepsInv` | navigation_server/couplers/ikonvert.py:255-319 | every access to a shared variable is a step; each keeps the invariant |
| `IKonvertHandshake.HandshakeIsSafe` | navigation_server/couplers/ikonvert.py:202-338 | over every interleaving of one command thread and the reader: at most one of a permit, an armed event and a release under way exists; a blocked thread has exactly one and no other state has any, so no permit leaks into a later wait; a thread woken from an ACK wait finds a result |
| `IKonvertHandshake.MatchingMessageWakes` | navigation_server/couplers/ikonvert.py:235-295 | a blocked thread is woken by a message if and only if it matches the armed event; a data message counts as a status only while not connected |
| `IKonvertHandshake.CallbackOutcome` | navigation_server/couplers/ikonvert.py:235-295 | what the callback of each kind of message leaves: the coupler ready for "not connected", connected for a status or data, as it was for ACK and NAK; the event cleared and one permit given exactly if the message answers the armed event; the result of an awaited ACK or NAK |
| `IKonvertHandshake.CommandWaitsFor` | navigation_server/couplers/ikonvert.py:297-319 | what a call arms before it blocks: the status wait any message, a command its ACK or any message as asked, after clearing the result |
| `IKonvertHandshake.EarlyMessageIsLost` | navigation_server/couplers/ikonvert.py:304-319 | an answer that arrives between writing the command and arming the event is lost: the thread then blocks, without a timeout, and stays blocked through every run until another message of the kind it waits for arrives |
| `IKonvertHandshake.TwoCommandsLoseAWakeup` | navigation_server/couplers/ikonvert.py:297-319 | with any number of command threads from two on, a run leaves one blocked with nothing left to wake it |
| `IKonvertHandshake.SafeIffAlone` | navigation_server/couplers/ikonvert.py:297-319 | over every run a blocked thread has a permit, an armed event or a release under way, if and only if there is at most one command thread |
| `IKonvertHandshake.Coupler.ProcessStatus` | navigation_server/couplers/ikonvert.py:255-276 | the callback without interruption is its steps in a row: ready for "not connected" and connected otherwise; the event is cleared and a permit given exactly if it answers |
| `IKonvertHandshake.Coupler.ProcessAcknak` | navigation_server/couplers/ikonvert.py:278-295 | the callback without interruption is its steps in a row: the state stays; an awaited ACK or NAK becomes the result and gives a permit, another one changes nothing |
| `GsvAssembly.GeneratedWhenAllSeen` | navigation_server/gnss/gnss_data.py:328-391 | PGN 129540 is generated only when every sentence number 1..n of the started group has been received since the group was started, over any sequence of sentences none of which is numbered from 2 - n to 0 in a pending group of n |
| `GsvAssembly.EarlyNumbers` | navigation_server/gnss/gnss_data.py:345-346 | the exact condition: a sentence numbered k never completes a pending group of n from which another one is missing, if and only if k is at least 1 or at most 1 - n |
| `GsvAssembly.CountsAsAnother` | navigation_server/gnss/gnss_data.py:340-391 | the input, for every k from 2 - n to 0: by Python indexing it counts as number n + k, so that after all sentences of a group but that one it generates the group, without that sentence |
| `GsvAssembly.OneFullGroupResynchronises` | navigation_server/gnss/gnss_data.py:334-390 | from any state in which the pending group is not empty, one full group in order at least as long as it ends with no group in progress |
| `GsvAssembly.EmptyGroupIsForever` | navigation_server/gnss/gnss_data.py:340-346 | a group announced with 0 sentences is never left: every later sentence raises |
| `GsvAssembly.AnnouncedEmpty` | navigation_server/gnss/gnss_data.py:340-346 | announcing one raises and leaves it in progress |
| `GsvAssembly.FullGroupIsGenerated` | navigation_server/gnss/gnss_data.py:334-407 | outside a group, a full group in order is generated once, at its last sentence, with the satellites of all its sentences over those known and the count of its first |
| `GsvAssembly.AnyOrderIsGenerated` | navigation_server/gnss/gnss_data.py:334-391 | the sentences of one group that begin with the first and continue in any order, repeated or not: it is generated exactly with the one behind which every number has been seen, and with no other |
| `GsvAssembly.SatellitesAreUpToDate` | navigation_server/gnss/gnss_data.py:351-380 | what any sentences leave of a satellite: if it was among the first four of a sentence that was read, the elevation, azimuth and signal of its last mention, and the time at which it was already known, or else of its first mention; if not, it is unchanged |
| `GsvAssembly.FullGroupIsUpToDate` | navigation_server/gnss/gnss_data.py:334-407 | all sentences of a full group in order are read, so that it is generated with the latest data of all their satellites |
| `GsvAssembly.SequenceCountsChanges` | navigation_server/gnss/gnss_data.py:320-326 | the sequence number is the number of changes of the time, modulo 254 |
| `GsvAssembly.Constellation.ProcessGSV` | navigation_server/gnss/gnss_data.py:328-391 | the method that updates the group flags and dictionary, against the specification |
| `GsvAssembly.Constellation.ReadSatellites` | navigation_server/gnss/gnss_data.py:351-380 | the loop over at most four satellites: the data of the last mention, the time of the first unless known, all others unchanged |
| `GsvAssembly.GNSSDataManager.AdjustSequence` | navigation_server/gnss/gnss_data.py:320-326 | the method, against the specification |
| `TickIndex.EntryIsMaximum` | navigation_server/log_replay/raw_log_reader.py:164-187 | in a log ordered by time entry k is the later of the first record at or after t0 + (k + 1) intervals, found by a linear scan, and the record behind entry k - 1 |
| `TickIndex.TicksIncrease` | navigation_server/log_replay/raw_log_reader.py:181-187 | the index is strictly increasing, for every log |
| `TickIndex.IndexIsUnique` | navigation_server/log_replay/raw_log_reader.py:164-187 | the one-pass index is the only one with that property |
| `TickIndex.MovesLandLate` | navigation_server/log_replay/raw_log_reader.py:290-298 | a move lands at least half an interval after its target, because entry k stands for k + 1 intervals; and, unless entries are crowded there, the record before it is less than one and a half intervals late |
| `TickIndex.ReadsFollow` | navigation_server/log_replay/raw_log_reader.py:249-271 | after a move or restart successive reads return the record landed on, every following record once, and then the end of the file, however often they are asked |
| `TickIndex.RawLogFile.LoadFile` | navigation_server/log_replay/raw_log_reader.py:151-207 | the loading pass keeps every line that parses, in order, with the tick index; it succeeds if and only if the first line that parses is a record, and fails with a bad prefix if and only if it lacks the prefix, with no record if and only if no line parses |
| `TickIndex.DecodedIs` | navigation_server/log_replay/raw_log_reader.py:164-181 | the records kept are the lines that are records, each once and as many lines in as there are records before it |
| `TickIndex.RawLogFile.IndexRecords` | navigation_server/log_replay/raw_log_reader.py:161-187 | the loop over the lines |
| `TickIndex.RawLogFile.AddRecord` | navigation_server/log_replay/raw_log_reader.py:181-186 | one record, and the tick it makes or not |
| `TickIndex.RawLogFile.PrepareRead` | navigation_server/log_replay/raw_log_reader.py:244-247 | the position is the given record, still to be returned |
| `TickIndex.RawLogFile.SetReferences` | navigation_server/log_replay/raw_log_reader.py:302-308 | the record at the position is to be returned next |
| `TickIndex.RawLogFile.MoveToDate` | navigation_server/log_replay/raw_log_reader.py:290-300 | moves exactly if the tick is in range, and otherwise leaves the position alone |
| `TickIndex.RawLogFile.ReadMessage` | navigation_server/log_replay/raw_log_reader.py:249-271 | one read, against the specification |
| `WireIds.ArbitrationIdRoundTrip` | navigation_server/can_interface/nmea2k_can_interface.py:268-276 | decoding a built id returns pgn, priority, source and destination (255 where the PGN has none), if and only if the low byte of an addressed PGN is 0 |
| `WireIds.BuildIs` | navigation_server/can_interface/nmea2k_can_interface.py:268-276 | the bit operations put source, PGN with destination, and priority side by side |
| `WireIds.DecodeIs` | navigation_server/can_interface/nmea2k_can_interface.py:180-187 | the header taken from an id made of these parts |
| `WireIds.AdjustIs` | navigation_server/nmea2000_datamodel/nmea2k_pgn_definition.py:77-84 | the PDU1 adjustment splits the low byte off if the PDU format is below 240 |
| `WireIds.ParseOfHex` | navigation_server/couplers/ydn2k_coupler.py:52-56 | parsing k printed hexadecimal digits of n gives n modulo 16^k |
| `WireIds.HexDigit` | navigation_server/couplers/ydn2k_coupler.py:119-120 | printed digits stand highest first: digit i of k is n divided by 16^(k - 1 - i), modulo 16 |
| `WireIds.YachtIdRoundTrip` | navigation_server/couplers/ydn2k_coupler.py:119-120 | the eight digits of a frame that is sent parse back to PGN, priority and low byte; the low byte is the destination when it is printed and the source when it is parsed |
| `WireIds.YachtIdIs` | navigation_server/couplers/ydn2k_coupler.py:119-120 | the id without parentheses in its shifts is the sum of its parts |
| `Shipmodul.AttributeIs` | navigation_server/couplers/shipmodul_if.py:131-140 | the packed attribute is the sum of its parts with the send bit |
| `Shipmodul.SentenceRoundTrip` | navigation_server/couplers/shipmodul_if.py:128-195 | a sentence that is sent reads back as PGN split by PDU format, priority, length and data in order; the low byte of the attribute is the destination when it is written and the source when it is read |
| `Shipmodul.Encode` | navigation_server/couplers/shipmodul_if.py:134-145 | the loop that fills the eight bytes from the end prints the reversed payload |
| `Shipmodul.DataDigits` | navigation_server/couplers/shipmodul_if.py:134-145 | the data digit by digit: byte k of the payload stands k bytes from the end, its high digit first |
| `Shipmodul.ReversedTwice` | navigation_server/couplers/shipmodul_if.py:193-194 | reversing the bytes twice gives them back |
| `EngineEvents.EventsFormAChain` | navigation_server/navigation_data/engine_service.py:404-487 | after any speeds, data, checks and restarts on a new engine under a monotone clock: events chain without self-loops and end in the current state; entries into RUNNING exceed exits by one exactly while it runs; a finished run has a stop time not before its start; each day file holds the events of its day, and the events in memory are the last ones |
| `EngineEvents.StepKeepsInv` | navigation_server/navigation_data/engine_service.py:404-487 | every operation, a restart from the saved status included, keeps that |
| `EngineEvents.OperationOutcome` | navigation_server/navigation_data/engine_service.py:404-487 | what every speed, data and check leave: the state (running above 0, on at 0, unchanged below; on after data if it was off; off after more than 30 seconds of silence), one event in memory, log and file of the day exactly if the state changes, start and stop times, hours, and what is saved |
| `EngineEvents.RestartReads` | navigation_server/navigation_data/engine_service.py:324-372 | and what a restart brings back of it |
| `EngineEvents.OneRunAtATime` | navigation_server/navigation_data/engine_service.py:426-436 | in every chain entries into RUNNING and exits from it alternate: at every point of the log there are as many exits as entries, or one less |
| `EngineEvents.ExitSetsStopTime` | navigation_server/navigation_data/engine_service.py:411-414 | leaving RUNNING by any operation sets the stop time to the time of the event |
| `EngineEvents.RestartRemembersTheStart` | navigation_server/navigation_data/engine_service.py:404-442 | the start time is set after the event has saved the status: a restart during a run, after any operations in it, brings the start time back if and only if a check or a later event has saved the status since; otherwise it brings back the one from before the run, or none |
| `EngineObject.EngineData.UpdateSpeed` | navigation_server/navigation_data/engine_service.py:404-421 | the method, against the specification; and outright: running above 0, on at 0, unchanged otherwise, with the start and stop times |
| `EngineObject.EngineData.UpdateData` | navigation_server/navigation_data/engine_service.py:454-461 | the method, against the specification; and outright: on if it was off, with the hours of the message |
| `EngineObject.EngineData.AddEvent` | navigation_server/navigation_data/engine_service.py:426-437 | event, day file, state and status file, in this order |
| `EngineObject.EngineData.CheckOff` | navigation_server/navigation_data/engine_service.py:475-487 | turned off after 30 seconds of silence; says whether it is off |
| `EngineObject.EngineData.SaveStatus` | navigation_server/navigation_data/engine_service.py:439-442 | the status file holds the current fields |

## Left out

- Floating-point scaling: a float attribute is the raw integer its scale and offset are applied to, or "not a number".
- Characters outside printable ASCII: a text is a sequence of bytes, each one character; multi-byte characters, which a fixed-length field can cut in two, are not modelled.
- Byte fields: the functions `clean_bytes` and `insert_byte` that the generator names for them are not part of this model, as nothing defines them; NAME fields and reserved strings are left out with them.
- Validation hooks, enumerations, accessors, JSON and protobuf conversion of the generated classes, and the text of the emitted Python (indentation, line ends).
- Byte lengths outside the struct tables (5, 6, 7), on which the definitions themselves raise; they are excluded by the well-formedness of fields.
- Attributes that were never assigned, or assigned a value of another type: encoding them raises in Python; the theorems are about objects whose attributes are set.
- Messages longer than the encode buffer of variable messages: the theorems require the payload to fit, as writing past it raises or grows the buffer depending on the statement.
- Repeated sets inside repeated sets, and `gen_repeated_decode` and `gen_repeated_encode`, which the generator never reaches because a repeated set makes a message variable.
- Fast packet and ISO transport reassembly; the wire codecs are modelled for single frames, and the NMEA checksum and line end of a Shipmodul sentence are not.
- NAME composition from the MAC address; a NAME is a number, and NAMEs on a network are distinct. They stay as they are: `process_command_group_function`, by which a command from the network changes the NAME of a running application, is not modelled.
- Loss and duplication of claims on the bus: a claim in flight is delivered once, at any later time. On the network each controller has one application; several are modelled in `AddressTables` and `ActiveController`.
- A claim timer that fires in an application already stopped: it changes nothing the network theorems are about; starting applications one at a time, heartbeat, product and configuration information.
- `ActiveController.Controller.ProcessBroadcastClaim`: is stated for a broadcast claim from an address a local application is registered at, the case in which a broadcast claim changes an address; other broadcast messages add at most the proxy of their sender and apply a pending change. When the application raises, the base controller keeps its lock, and what the process does then is not modelled.
- `AddressTables.TablesFollowAddresses`: is about runs in which addresses are given and commanded to one application at a time and no change is made while another is pending; for a second change `AddressTables.SecondChangeIsLost` says what happens.
- `PgnWholeSets.WholeSetIffFaithful`: leaves out sets whose number of items is kept in a three-byte field, for which it is false (`PgnCounted.CounterNeedNotBeFaithful`), and is stated for sets that have a message in range which fits the buffer, with one item if there is a repeated set.
- `ClaimNetwork.AddressesAreDisputedOrDistinct`: is about runs whose commanded addresses are below 254; with 254 and 255 it is false, which `ClaimNetwork.CommandedNullAddressIsShared` proves for both.
- Stopping the writer thread from outside, traces and bus timeouts; a run is any finite number of turns.
- `TickIndex.RawLogFile.LoadFile`: does not model the abort flag, the header line, and the wait between reads; time differences are exact, so the rounding of the quotient is that of exact numbers.
- `move_forward`, `send_hex_cmd` and the fix flag of the GNSS manager, whose code does not do what it is for.
- The number field of a GSV sentence is an integer: the first sentence of a group is tested as the text "1" in the code, so a sentence numbered "01" would be ignored there and is not modelled; fields that do not parse and empty satellite fields are left out.
- `IKonvertHandshake.HandshakeIsSafe`: is about one command thread; with two it fails, which `IKonvertHandshake.TwoCommandsLoseAWakeup` proves. Serial input and output are left out.
- The temperature and voltage of an engine and the speed it keeps, which no state depends on; creation of directories and files that cannot be read.
- gRPC services, network clients, proxies, the agent, MPPT trends and subscriber filters, which would only add easy members.
