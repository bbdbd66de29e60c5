# iSCSI initiator: a model of its core, with proofs

The iSCSI initiator for OS X consists of a kernel driver (a virtual host bus adapter), a daemon and a
framework for its preferences. The modules here follow the parts of it that do the most.

| module | part of the initiator |
|---|---|
| `Words`, `Wrappers` | bytes, 32-bit words as their bits, `Option` |
| `Crc32c` | the three-way interleaved CRC-32C with its GF(2) matrices and shift tables |
| `DigestLimits` | the registers that zero bytes leave alone, and the digests that can be had |
| `Hba` | session, connection and task records |
| `PduFraming` | PDUs as bytes: length field, padding, digests, and the wire as a sequence of PDUs |
| `CommandNumbers` | runs of sends, some of them refused, and the command numbers on the wire |
| `PduDigests` | what header and data digests detect, and what they do not |
| `DataPath` | starting a task, Data-Out and R2T, and the bytes still to transfer |
| `Reassembly` | pieces of data at offsets, and the ranges that they cover |
| `WritePath` | a whole WRITE, and the target that reads it off the wire |
| `ReadPath` | Data-In, and a whole READ |
| `TaskQueue` | the task queue of a connection and its one-at-a-time start protocol |
| `Drain` | task tags, and failing the queued tasks of a connection |
| `Sessions` | session and connection slots, the name index, active connections |
| `Preferences` | configured targets and discovery portals, and the index between them |
| `Discovery` | reconciling configured targets with what a portal reported |
| `Packing` | the parameter buffer between daemon and driver |

Code that changes state is a method or a class here, proved against a function of the old state; what
the initiator is meant to guarantee is proved about those functions, over all inputs and, where state
machines are concerned, over all runs. A socket is a pair of byte sequences together with an arbitrary
choice of which sends fail; a target sends an arbitrary sequence of requests and reads the bytes on the
wire; allocation and socket errors are arguments of the call that meets them; dictionaries are maps, and
a discovery record is the sequence in which it is enumerated.

Where the code differs from what its comments or RFC 3720 promise, the code is modelled, and a lemma
says exactly when the promise holds:

- The data digest covers the data without its padding on both sides, although section 12.1 of RFC 3720
  includes the padding bytes and a comment in `RecvPDUData` says that they are. The two digests agree
  exactly when the data needs no padding or its digest is 0xffffffff or 0x035bd250 (`PaddingCoveredIff`).
  With data digests on, a target that follows the standard refuses any other segment of the driver
  (`ReadByStandardIff`, `OneByteWrite`), and the driver refuses any other segment of such a target
  (`ConformingSegmentAcceptedIff`, `UnalignedSegmentRefused`).
- The length field holds 24 bits: longer data is announced modulo 2^24, and one PDU is read as it was sent
  only if its data is shorter (`FrameRoundTrip`). Nothing keeps the segment size below that: line 72 of
  Source/Kernel/iSCSIRFC3720Defaults.h writes its bound as 2e24-1, and line 1033 of
  Source/Kernel/iSCSIHBAUserClient.cpp stores any value.
- So a WRITE reaches a target that follows the standard, whatever its buffer holds, exactly when no segment
  has 2^24 bytes or more, and data digests are off or no segment needs padding (`PerformWrite`,
  `LargestSegment`, `MultiplesOfFour`). A READ is taken in full exactly when the
  digests of its segments agree (`PerformRead`).
- A header digest is compared only when it is not zero (`HeaderAcceptedIff`), and every beginning of a
  header can be continued to one whose digest is zero (`UnprotectedHeader`). A header whose digest has not
  arrived as a whole may pass unchecked, and always does when nothing of it has arrived
  (`ShortHeaderAcceptedIff`).
- A data segment that has only partly arrived is accepted when data digests are off, or what has arrived of
  the digest happens to be right and the rest of it zero (`ShortSegmentAcceptedIff`, `UnprotectedSegment`).
- Command numbers of a target are compared as plain numbers, although section 3.2.2.1 of RFC 3720 asks for
  serial arithmetic: over a run of less than 2^32 numbers, what is kept is the latest one exactly when the
  count has not wrapped round (`KeptIsLaterIff`, `KeptIsLatestIff`).
- The Data-Out loop ends exactly when the segment size is positive, there is nothing to send, or a send
  fails (`DataOutEndsIff`).
- A refused send has used up its command number: the numbers on the wire have no gap exactly when no
  numbered PDU is refused before an accepted one (`NumbersOnTheWire`).
- The F bit of a command stays clear when immediate data fills the first burst (`FinalBitIff`).
- LUNs above 255 and task identifiers above 65535 overlap in the task tag (`TagParts`).
- A queued tag of zero ends the drain of a connection early (`DrainCompleteIff`).
- Deactivating a connection twice, or activating it twice, spoils the count (`RunsAreCountedIffOrderly`).
- A failed session under a name in use takes the name from the older session (`FailedCreateRestores`).
- Renaming a target to its own name deletes it (`RenameKeepsTargetIff`).
- A target in a portal's list is removed by the portal's update even if it is static by then
  (`UpdateRemovesIff`, `StaleListingRemovesStatic`).

The balance of a connection, `Hba.Connection.Balanced`, is a clause of every data path method: the bytes
still to transfer are those requested less those counted, modulo 2^64, after every call.

## Model

| member | source | states |
|---|---|---|
| Crc32c.Engine.Compute | Source/Kernel/crc32c.c:159-246 | For every starting digest, buffer, length and start address the interleaved computation returns the bit-serial CRC-32C of section 12.1 of RFC 3720 over exactly the first `length` bytes; an absent or empty buffer returns the starting digest |
| Crc32c.DigestAppend | Source/Kernel/crc32c.c:159-246 | Continuing a digest over B from the digest of A gives the digest of A followed by B |
| Crc32c.BurstDetected | Source/Kernel/crc32c.c:159-246 | Two different messages of the same length whose bits differ only inside a window of 32 consecutive bits never have the same digest, whatever the length, the position of the window and the starting digest |
| Crc32c.PolyIsReversed | Source/Kernel/crc32c.c:41-42 | The constant is the generator polynomial 0x11EDC6F41 without its leading term, in reversed bit order |
| Crc32c.StepInjective | Source/Kernel/crc32c.c:41-60 | One step of the register over a zero bit loses nothing: equal results come from equal registers |
| Crc32c.SerialBitsAtOnce | Source/Kernel/crc32c.c:172-180 | Up to 32 message bits may be added to the register at once and stepped over afterwards, which is what ties the meaning of the crc instructions to the bit-serial definition |
| Crc32c.Crc32bsIsFeed | Source/Kernel/crc32c.c:228-230 | The one-byte instruction applied to byte after byte, and so the eight-byte one, is the bit-serial register over the same bytes in memory order |
| Crc32c.FeedJoin | Source/Kernel/crc32c.c:198-199 | A register over A then B is the register over A stepped over as many zero bits as B has, plus the register over B started from zero |
| Crc32c.MatrixTimes | Source/Kernel/crc32c.c:48-60 | Walking the rows while bits remain gives the whole product over all 32 rows, although the loop stops at the last set bit |
| Crc32c.TimesIsSteps | Source/Kernel/crc32c.c:48-60 | A matrix whose rows are right for the 32 unit vectors makes the same number of steps on every register |
| Crc32c.MatrixSquare | Source/Kernel/crc32c.c:64-70 | Every row of the result is the matrix applied to the row of the input |
| Crc32c.SquareOfSteps | Source/Kernel/crc32c.c:64-70 | Squaring the matrix for n steps gives the matrix for 2n steps |
| Crc32c.OneBitOp | Source/Kernel/crc32c.c:83-89 | The loop that fills the first matrix makes it the matrix of a single step |
| Crc32c.ZerosOp | Source/Kernel/crc32c.c:77-112 | For every length the squaring loop ends, and the matrix it leaves steps over p zero bytes, p the largest power of two not above the length, or 1 for length 0, whichever of the two matrices the loop ended in |
| Crc32c.FillZeros | Source/Kernel/crc32c.c:116-128 | Each of the 4 x 256 entries is the step over p zero bytes of a register that holds that byte at that position |
| Crc32c.ShiftIsSteps | Source/Kernel/crc32c.c:131-135 | Four table lookups combined step the whole register, for every register |
| Crc32c.Engine.Init | Source/Kernel/crc32c.c:152-156 | After initialisation the two tables step over 8192 and 256 zero bytes |
| Crc32c.Engine.ThreeRegisters | Source/Kernel/crc32c.c:186-197 | The interleaved loop leaves three registers over three adjacent blocks, the second and third started from zero |
| Crc32c.Engine.ThreeBlocks | Source/Kernel/crc32c.c:186-222 | Joining them through the table gives the register over the three blocks as one stretch, for either block size |
| DigestLimits.DigestOfZeros | Source/Kernel/crc32c.c:48-70 | Up to three zero bytes behind a message leave its digest as it is if and only if there are none or the register is zero or 0xfca42daf |
| DigestLimits.UnmovedByBytes | Source/Kernel/crc32c.c:48-70 | The step matrices for one, two and three zero bytes leave alone exactly the registers zero and 0xfca42daf |
| DigestLimits.FillerWorks | Source/Kernel/crc32c.c:48-60 | From any register, some 32 message bits lead to any other register |
| PduFraming.LengthFieldRoundTrip | Source/Kernel/iSCSIVirtualHBA.h:477-490 | Reading the 24-bit length field after writing it gives the length modulo 2^24 |
| PduFraming.HeaderRoundTrip | Source/Kernel/iSCSIPDUShared.h:88-101 | Every header field is found again at the byte offset that section 10.2.1 of RFC 3720 gives it |
| PduFraming.BytesOfFields | Source/Kernel/iSCSIVirtualHBA.h:477-490 | Numbers and lengths in headers have their most significant byte first |
| PduFraming.SendPDU | Source/Kernel/iSCSIVirtualHBA.cpp:1837-1939 | Exactly the header completed with command number, status number and length, then digest, data, padding and data digest go out after what was sent before; the command number moves on by one, modulo 2^32, unless the opcode is that of Data-Out or has the delivery bit of an immediate PDU. A refused send puts nothing on the wire but its number is used up; the teardown of the connection that the driver then starts is not part of the contract |
| PduFraming.FrameRoundTrip | Source/Kernel/iSCSIVirtualHBA.cpp:1857-1926 | One completed PDU followed by any bytes is read back exactly, leaving those bytes, if and only if its data is shorter than 2^24 bytes and the reader finds its digest right, for each combination of digests; the reader is the driver itself or a peer that follows the standard, which also expects byte 4 of the header to announce no additional header segments. A PDU of which only digest or byte 4 is wrong is refused |
| PduFraming.WireRoundTrip | Source/Kernel/iSCSIVirtualHBA.cpp:1979-2034 | Completed PDUs that the reader can read are read back one by one off the wire, and reading goes on where the last one ends, whatever follows |
| PduFraming.WireRoundTripIff | Source/Kernel/iSCSIVirtualHBA.cpp:1979-2034 | What is on the wire is read back as it was sent if and only if every data segment is below 2^24 bytes and the reader accepts every header and digest; where only these are wrong, reading fails |
| CommandNumbers.CmdSNOf | Source/Kernel/iSCSIVirtualHBA.cpp:1848-1855 | The command number of a PDU is the first one plus the number of numbered PDUs before it, modulo 2^32 |
| CommandNumbers.NextNumber | Source/Kernel/iSCSIVirtualHBA.cpp:1848-1855 | Of two PDUs with nothing but Data-Out between them, the later carries the number of the earlier if that one has the delivery bit, and its successor modulo 2^32 otherwise |
| CommandNumbers.FirstNumber | Source/Kernel/iSCSIVirtualHBA.cpp:1848-1855 | The first PDU other than Data-Out carries the number that the run starts from |
| CommandNumbers.CmdSNConsecutive | Source/Kernel/iSCSIVirtualHBA.cpp:1848-1855 | Over any run of sends, the numbered PDUs carry consecutive numbers modulo 2^32, and an immediate PDU carries the number of the next numbered one (section 3.2.2.1 of RFC 3720); NextNumber says which PDUs these are |
| CommandNumbers.SendRequests | Source/Kernel/iSCSIVirtualHBA.cpp:1837-1939 | Over any run of sends on a socket that refuses any of them, the bytes on the wire are those of the accepted PDUs, and a reader gets exactly these if and only if their data is below 2^24 bytes and it finds their digests right; the teardown of the connection that the driver starts on a refused send is not part of the contract |
| CommandNumbers.NumbersOnTheWire | Source/Kernel/iSCSIVirtualHBA.cpp:1848-1936 | The accepted PDUs carry the numbers that the receiver expects if and only if the refused ones before each have used up none (a multiple of 2^32 in longer runs) |
| CommandNumbers.KeptIsLaterIff | Source/Kernel/iSCSIVirtualHBA.cpp:2050-2053 | The greater of two numbers is the later one in serial arithmetic if and only if they differ by less than 2^31, or the new one is smaller by just that much |
| CommandNumbers.KeptIsLatestIff | Source/Kernel/iSCSIVirtualHBA.cpp:2045-2053 | Over any run in which the target moves on by less than 2^32, what is kept is its latest number if and only if the count has not wrapped round |
| PduFraming.RecvPDUHeader | Source/Kernel/iSCSIVirtualHBA.cpp:1962-2059 | Error, header and remaining stream; the highest expected and maximum command numbers are kept, and the expected status number advances only where the response counts (StatusCountsIff); a Data-In without status and a rejected header change none of them |
| PduFraming.StatusCountsIff | Source/Kernel/iSCSIVirtualHBA.cpp:2036-2056 | By the bytes of the header, status counts if and only if the PDU is not a Data-In (0x25) with the S bit clear, not an R2T (0x31), and neither status number nor task tag is all ones; nothing but a Data-In with the S bit clear leaves the command numbers unread |
| PduFraming.HostOrderReads | Source/Kernel/iSCSIVirtualHBA.cpp:2045-2048 | The three sequence numbers of the header read in host order are those on the wire, and no other byte moves |
| PduFraming.IncompleteHeaderRefused | Source/Kernel/iSCSIVirtualHBA.cpp:2012-2020 | Fewer than 48 bytes are refused with EIO |
| PduFraming.RecvPDUData | Source/Kernel/iSCSIVirtualHBA.cpp:2070-2146 | The data goes to the buffer, padding and digest are consumed, and the result is an error exactly when the data digest is in use and differs from that of the unpadded data; when less has arrived, the rest of the buffer keeps what it held |
| PduDigests.HeaderAcceptedIff | Source/Kernel/iSCSIVirtualHBA.cpp:2022-2034 | A header is accepted if and only if the digest that came with it is right or is zero |
| PduDigests.ShortHeaderAcceptedIff | Source/Kernel/iSCSIVirtualHBA.cpp:2013-2034 | With header digests, a header of whose digest fewer than four bytes have arrived is accepted if and only if these are zero, or are right and the rest of the right digest is zero |
| PduDigests.CorruptHeaderRejected | Source/Kernel/iSCSIVirtualHBA.cpp:2022-2034 | A header with an error burst of at most 32 bits is rejected if and only if the digest sent with it was not zero |
| PduDigests.UnprotectedHeader | Source/Kernel/iSCSIVirtualHBA.cpp:2022-2034 | Every first 44 bytes of a header can be continued to one with digest zero, of which every corrupted copy is accepted |
| PduDigests.DigestChecksItself | Source/Kernel/iSCSIVirtualHBA.cpp:1882-1887 | Any message followed by the four bytes of its digest as they go on the wire has the same digest as four zero bytes |
| PduDigests.ChecksumInParts | Source/Kernel/iSCSIVirtualHBA.cpp:1882-1882 | The digest of a PDU starts from zero, and that of a message in two parts is the digest of the second started from that of the first |
| PduDigests.KnownDigest | Source/Kernel/crc32c.c:159-246 | The digest of the bytes ff ff ff 7f is 0x7d09c487 |
| PduDigests.CorruptDataRejected | Source/Kernel/iSCSIVirtualHBA.cpp:2129-2143 | With data digests, every error burst of at most 32 bits in a segment of any length is rejected, whatever arrived as padding |
| PduDigests.PaddingCoveredIff | Source/Kernel/iSCSIVirtualHBA.cpp:1900-1916 | The digest that is sent is the one over data and padding if and only if no padding is needed or the digest is one of two |
| PduDigests.ReadByStandardIff | Source/Kernel/iSCSIVirtualHBA.cpp:1859-1916 | A peer that follows the standard reads all that was sent if and only if every segment is below 2^24 bytes, no header announces additional header segments and, with data digests, every segment needs no padding or has one of the two digests |
| PduDigests.StandardHeaderIff | Source/Kernel/iSCSIVirtualHBA.cpp:1877-1887 | A peer that follows the standard accepts a header if and only if its digest, where there is one, is right and byte 4 announces no additional header segments |
| PduDigests.StandardDataIff | Source/Kernel/iSCSIVirtualHBA.cpp:1876-1916 | It accepts a segment if and only if the digest, where there is one, is that over data and padding |
| PduDigests.ShortSegmentAcceptedIff | Source/Kernel/iSCSIVirtualHBA.cpp:2112-2145 | A segment that has only partly arrived is accepted if and only if data digests are off, or the digest of what lies in the buffer begins with what has arrived of a digest and is zero from there on |
| PduDigests.UnprotectedSegment | Source/Kernel/iSCSIVirtualHBA.cpp:2130-2143 | Every beginning of a segment can be continued to one that is accepted although nothing of its digest has arrived |
| PduDigests.IndifferentDigests | Source/Kernel/iSCSIVirtualHBA.cpp:1916-1916 | These two digests are 0xffffffff and 0x035bd250 |
| PduDigests.ConformingSegmentAcceptedIff | Source/Kernel/iSCSIVirtualHBA.cpp:2129-2143 | A segment whose digest covers the padding is accepted if and only if data digests are off, it needs no padding or it has one of the two digests, and refused with EIO otherwise |
| PduDigests.UnalignedSegmentRefused | Source/Kernel/iSCSIVirtualHBA.cpp:2129-2143 | A concrete segment of one byte that is refused |
| DataPath.PlanTotal | Source/Kernel/iSCSIVirtualHBA.cpp:1189-1219 | The Data-Out PDUs of a request carry exactly the requested number of bytes |
| DataPath.PlanShape | Source/Kernel/iSCSIVirtualHBA.cpp:1189-1219 | They are numbered 0, 1, 2 and so on, start at the requested offset, follow each other without a gap, are full except for the last, and only the last has the F bit (section 10.7 of RFC 3720) |
| DataPath.PlanCount | Source/Kernel/iSCSIVirtualHBA.cpp:1189-1219 | Their number is the length divided by the segment size, rounded up |
| DataPath.DataOutEndsIff | Source/Kernel/iSCSIVirtualHBA.cpp:1189-1219 | The loop ends if and only if the segment size is positive, there is nothing to send, or some send fails |
| DataPath.SendSegment | Source/Kernel/iSCSIVirtualHBA.cpp:1191-1215 | One pass puts the bytes of the buffer at the chunk's offset on the wire and counts them, or does neither when the send fails |
| DataPath.ProcessDataOut | Source/Kernel/iSCSIVirtualHBA.cpp:1162-1223 | For every pattern of send failures, what is on the wire and counted is the part of the plan before the first failure; all of it when no send fails; the bytes added to the wire are those of the PDUs added; the command number does not change |
| DataPath.AcceptedMeans | Source/Kernel/iSCSIVirtualHBA.cpp:1204-1206 | What is counted as accepted is what precedes the first failing send |
| DataPath.DataOutHeader | Source/Kernel/iSCSIPDUKernel.h:145-160 | A target finds opcode, F bit, length, LUN, tags, expected status number, data number and offset of a Data-Out PDU at the offsets of section 10.7 of RFC 3720, no additional header segments announced and all other bytes zero |
| DataPath.CommandHeader | Source/Kernel/iSCSIPDUKernel.h:163-175 | A target finds opcode, F bit, direction, attribute, length of the immediate data, LUN, tag, transfer length, command and status number and CDB of a command PDU at the offsets of section 10.3 of RFC 3720, no additional header segments announced and all other bits zero |
| DataPath.SendCommand | Source/Kernel/iSCSIVirtualHBA.cpp:643-670 | The command PDU goes on the wire with the first bytes of the buffer as immediate data, which count as transferred even when the send fails |
| DataPath.OpenTask | Source/Kernel/iSCSIVirtualHBA.cpp:623-678 | Which command PDU goes on the wire, and where unsolicited Data-Out starts and how much of it there is, for every direction and all negotiated settings |
| DataPath.OpeningMeans | Source/Kernel/iSCSIVirtualHBA.cpp:623-678 | A command that writes nothing brings nothing; a WRITE brings the smaller of immediate limit and transfer as immediate data, if it may, and, unless an R2T must come first, immediate data and unsolicited Data-Out together reach the smaller of first burst and transfer; no burst follows immediate data that reaches the first burst |
| DataPath.BeginTask | Source/Kernel/iSCSIVirtualHBA.cpp:549-683 | Everything on the wire and counted when a task starts: the command, then the plan for the unsolicited part up to the first failed send, whether or not the command itself was sent; after activation the unsolicited part stays within the first burst. In the driver, a refused send has by then started the teardown of the connection that the later sends still use; that teardown is not part of the contract |
| DataPath.UnsolicitedWithinFirstBurst | Source/Kernel/iSCSIVirtualHBA.cpp:643-682 | Unsolicited data never exceeds the transfer, and stays within FirstBurstLength exactly when the immediate part does |
| DataPath.UnsolicitedHasTags | Source/Kernel/iSCSIVirtualHBA.cpp:680-681 | Unsolicited Data-Out carries LUN and tag of its task and 0xffffffff as transfer tag |
| DataPath.ActivatedWithinFirstBurst | Source/Kernel/iSCSIVirtualHBA.cpp:1691-1693 | With the limit that activation sets, unsolicited data is at most the smaller of FirstBurstLength and transfer size, and with InitialR2T=No exactly that (sections 12.10, 12.11 and 12.14 of RFC 3720) |
| DataPath.FinalBitIff | Source/Kernel/iSCSIVirtualHBA.cpp:655-675 | A command PDU with the F bit is never followed by unsolicited Data-Out; the converse holds except in exactly two cases, which are named |
| DataPath.FinalBitMissing | Source/Kernel/iSCSIVirtualHBA.cpp:655-675 | A concrete write whose immediate data fills the first burst: nothing follows, yet the F bit is clear |
| DataPath.ProcessR2T | Source/Kernel/iSCSIVirtualHBA.cpp:1138-1160 | The requested range goes on the wire with the request's own LUN and tags |
| DataPath.AnswerHasTagsOf | Source/Kernel/iSCSIVirtualHBA.cpp:1157-1158 | Bytes 8 to 23 of every answer, LUN and both tags, are those of the request |
| DataPath.AssignTask | Source/Kernel/iSCSIVirtualHBA.cpp:529-530 | The bytes still to transfer stay equal to requested minus counted, modulo 2^64, when a task is assigned |
| ReadPath.ProcessDataIn | Source/Kernel/iSCSIVirtualHBA.cpp:998-1062 | An intact segment goes to its place in the buffer and is counted, a damaged one changes neither, one that has partly arrived counts as intact unless a digest says otherwise; either way F and S together, bits 0x80 and 0x01 of byte 1, complete the task, and F or S alone do not; a PDU without data is ignored even when it carries status; the balance is kept |
| ReadPath.CompletionHasStatus | Source/Kernel/iSCSIVirtualHBA.cpp:1039-1042 | A Data-In completes the task if and only if it has the F bit and the reception of its header has taken note of its status |
| ReadPath.ReceiveDataIn | Source/Kernel/iSCSIVirtualHBA.cpp:698-723 | One Data-In PDU of a target that follows the standard off the stream: its data goes to the place its header names and is counted if its digest agrees with that of the driver, and neither otherwise; it completes the task if and only if F and S are set; the expected status number has moved on by one if and only if S is set and neither status number nor tag is reserved; the stream is left behind it |
| ReadPath.PerformRead | Source/Kernel/iSCSIVirtualHBA.cpp:998-1062 | A whole READ from a target that follows the standard: exactly the segments whose digests agree end up in the buffer and are counted; all bytes are counted if and only if all digests agree; and then, if the segments are slices of the target's data that together hold every byte, in any order, the buffer equals that data; the task is complete if and only if the last PDU has F and S, and the expected status number has moved on by the PDUs that brought status; what follows on the stream is left alone |
| WritePath.DataOutPieces | Source/Kernel/iSCSIVirtualHBA.cpp:1189-1219 | The PDUs of a request within the buffer are slices of it at their own offsets and together hold each requested byte once and no other |
| WritePath.RangeOfR2T | Source/Kernel/iSCSIVirtualHBA.cpp:1153-1155 | Offset and length of a request are the big-endian words at bytes 40 and 44 of its header |
| Reassembly.Reassembled | Source/Kernel/iSCSIVirtualHBA.cpp:1189-1219 | A target that writes slices at their offsets ends up with the buffer as soon as every byte is in some slice, whatever its memory held and in whatever order they come |
| Reassembly.TilesLength | Source/Kernel/iSCSIVirtualHBA.cpp:1153-1158 | Requests that cover an interval exactly once have its length in total, in any order |
| WritePath.AnswerAll | Source/Kernel/iSCSIVirtualHBA.cpp:1138-1223 | Answering any sequence of requests brings all their ranges, byte for byte on the wire, and counts all their bytes; whether all PDUs fit the length field, and whether none needs padding, is told by the segment size and the requested lengths |
| WritePath.PerformWrite | Source/Kernel/iSCSIVirtualHBA.cpp:549-683 | A whole WRITE: for every buffer, all negotiated settings and every segment size, if the target's requests tile what was not sent unsolicited, in any order, each byte is sent once and counted once. A target that follows the standard, and so accepts no header that announces additional segments, reads the bytes on the wire PDU by PDU and places data by the offsets in the headers. If no PDU carries 2^24 bytes or more, it ends up with the buffer if and only if every digest agrees with that of the standard, and gets nothing otherwise; digests agree for every buffer when they are off or no PDU needs padding, and not for a buffer of zeros when one does. If some PDU is larger, it does not read what was sent, and a buffer of nothing but ones never arrives (sections 10.7, 10.8 and 12.1 of RFC 3720) |
| WritePath.MultiplesOfFour | Source/Kernel/iSCSIVirtualHBA.cpp:1172-1199 | If the immediate part, the burst, the segment size and all requested lengths are multiples of 4, no PDU needs padding |
| WritePath.OneByteWrite | Source/Kernel/iSCSIVirtualHBA.cpp:643-660 | A concrete WRITE of one byte of immediate data that fits but needs padding: with data digests a byte of zero is not read by a target that follows the standard |
| WritePath.UnfitOnes | Source/Kernel/iSCSIVirtualHBA.cpp:1859-1859 | If any segment has 2^24 bytes or more, data of nothing but ones never reaches the target: its next header is looked for inside the data |
| WritePath.LargestSegment | Source/Kernel/iSCSIVirtualHBA.cpp:1172-1199 | Segment sizes below 2^24 are always good for Data-Out; with 2^24 a WRITE of that many bytes is not |
| Drain.TagParts | Source/Kernel/iSCSIVirtualHBA.h:451-475 | For any LUN and identifier of 64 bits, the parsers return what a task tag was built from if and only if the LUN is below 256 and the identifier below 65536; when the tag is zero |
| Drain.TagOfSmallParts | Source/Kernel/iSCSIVirtualHBA.h:453-460 | A LUN below 256 and an identifier below 65536 make the tag identifier + 2^16 * LUN + 2^24 * type |
| Drain.OrIsBitwise | Source/Kernel/iSCSIVirtualHBA.h:453-460 | The word that combines the parts of a tag has a bit set if and only if one of them has |
| Drain.Controller.CompleteParallelTask | Source/Kernel/iSCSIVirtualHBA.cpp:751-799 | A task without data transfer leaves the speed history alone; a transfer advances it, and when it wraps a latency task joins the queue |
| Drain.LatencyEveryThirtieth | Source/Kernel/iSCSIVirtualHBA.cpp:774-787 | Over any run of completed tasks, the history stands at the number of transfers modulo 30, and the queue has grown by one latency task, tag 0x01000000, for every thirty of them |
| Drain.Controller.FailQueuedTasks | Source/Kernel/iSCSIVirtualHBA.cpp:1760-1781 | The drain ends although completing a task may queue another, and does what its specification says; the queue is disabled |
| Drain.DrainFails | Source/Kernel/iSCSIVirtualHBA.cpp:1763-1781 | Exactly the tasks outstanding among the tags before the first zero are failed, each once and in FIFO order; with no zero the queue ends empty; no other task is forgotten |
| Drain.KnownOnce | Source/Kernel/iSCSIVirtualHBA.cpp:1763-1781 | No task is failed twice |
| Drain.KnownWhole | Source/Kernel/iSCSIVirtualHBA.cpp:1763-1781 | Outstanding tasks that are queued once each are all failed, in the order of the queue |
| Drain.UpToZeroMeans | Source/Kernel/iSCSIVirtualHBA.cpp:1768-1768 | What is drained is the queue up to its first zero, or all of it |
| Drain.DrainCompleteIff | Source/Kernel/iSCSIVirtualHBA.cpp:1763-1781 | All queued tasks are failed if and only if no queued tag is zero |
| Drain.ZeroTagStopsDrain | Source/Kernel/iSCSIVirtualHBA.cpp:1768-1768 | A concrete queue whose head has tag zero: nothing is failed and the task behind it stays queued |
| Sessions.VirtualHBA.CreateSession | Source/Kernel/iSCSIVirtualHBA.cpp:1307-1406 | New tables and error for every combination of free slots and faults, the name index included |
| Sessions.CreateSessionEffect | Source/Kernel/iSCSIVirtualHBA.cpp:1307-1406 | A create succeeds if and only if a slot is free and nothing goes wrong; then the name leads to the first free slot, which holds a session whose connection 0 exists and is not enabled; every other name, slot and SCSI target is as before |
| Sessions.VirtualHBA.CreateConnection | Source/Kernel/iSCSIVirtualHBA.cpp:1477-1623 | The first free slot is taken, or the tables are as before and the error says why |
| Sessions.CreateConnectionEffect | Source/Kernel/iSCSIVirtualHBA.cpp:1477-1623 | A connection goes to the first free slot of a live session, not yet enabled, and nothing else changes; otherwise the error says why and nothing changes |
| Sessions.VirtualHBA.ActivateConnection | Source/Kernel/iSCSIVirtualHBA.cpp:1674-1711 | Limit on immediate data set, queue enabled, count and target updated; a target that cannot be created leaves the queue disabled |
| Sessions.ActivateEffect | Source/Kernel/iSCSIVirtualHBA.cpp:1674-1711 | The connection ends enabled, or disabled when the first target of a session cannot be created; names, the other connection and the other sessions are as before |
| Sessions.VirtualHBA.DeactivateConnection | Source/Kernel/iSCSIVirtualHBA.cpp:1743-1792 | Queue disabled, count decremented in 32 bits, target removed when the count is zero |
| Sessions.DeactivateEffect | Source/Kernel/iSCSIVirtualHBA.cpp:1743-1792 | The connection ends disabled, the SCSI target goes with the last active one, and nothing else changes |
| Sessions.VirtualHBA.ReleaseConnection | Source/Kernel/iSCSIVirtualHBA.cpp:1627-1666 | An enabled connection is deactivated first; the slot becomes free |
| Sessions.ReleaseConnectionEffect | Source/Kernel/iSCSIVirtualHBA.cpp:1627-1666 | The slot of the connection is free and every other slot and name is as before |
| Sessions.VirtualHBA.ReleaseSession | Source/Kernel/iSCSIVirtualHBA.cpp:1425-1466 | All connections, the slot and every name of the session go, although the search through the index stops at the first name found |
| Sessions.ReleaseSessionEffect | Source/Kernel/iSCSIVirtualHBA.cpp:1425-1466 | The slot of the session is free, exactly its names are gone, and the other names and slots are as before |
| Sessions.VirtualHBA.ReleaseAllSessions | Source/Kernel/iSCSIVirtualHBA.cpp:1409-1420 | The sessions in the slots are released one after the other |
| Sessions.CreateSessionKeepsIndex | Source/Kernel/iSCSIVirtualHBA.cpp:1375-1396 | Creating a session, successful or rolled back, keeps names pointing to live sessions and no two to the same one |
| Sessions.FailedCreateRestores | Source/Kernel/iSCSIVirtualHBA.cpp:1390-1405 | A create that fails in its connection restores both tables if and only if the name was not in use; otherwise the older session loses its name |
| Sessions.RunsAreIndexed | Source/Kernel/iSCSIVirtualHBA.cpp:1307-1466 | On every run of all calls with any faults, names point to live sessions and no two names share one |
| Sessions.ReleaseAllEmpties | Source/Kernel/iSCSIVirtualHBA.cpp:1409-1466 | Releasing all sessions empties the slots and the index |
| Sessions.VirtualHBA.GetSessionIdForTargetIQN | Source/Kernel/iSCSIHBAUserClient.cpp:1196-1218 | The session of a name, or none |
| Sessions.VirtualHBA.GetTargetIQNForSessionId | Source/Kernel/iSCSIHBAUserClient.cpp:1352-1398 | Some name of the live session, cut to the caller's buffer, and none only if it has none |
| Sessions.LookupsAreInverse | Source/Kernel/iSCSIHBAUserClient.cpp:1196-1398 | On every run, what is found for the session of a name is that name, as far as the caller's buffer goes |
| Sessions.ActivateKeepsCount | Source/Kernel/iSCSIVirtualHBA.cpp:1695-1708 | The number of active connections stays right if and only if the connection was not already enabled |
| Sessions.DeactivateKeepsCount | Source/Kernel/iSCSIVirtualHBA.cpp:1783-1787 | It stays right if and only if the connection was enabled or does not exist |
| Sessions.ReleaseSessionKeepsCount | Source/Kernel/iSCSIVirtualHBA.cpp:1439-1447 | Releasing a session, active connections included, keeps every count right and takes its target away |
| Sessions.RunsAreCountedIffOrderly | Source/Kernel/iSCSIVirtualHBA.cpp:1627-1792 | Throughout a run the count equals the number of enabled connections and the SCSI target exists exactly when it is positive, if and only if connections are activated only when disabled and deactivated only when enabled |
| Sessions.DisorderlyRun | Source/Kernel/iSCSIVirtualHBA.cpp:1783-1783 | Deactivating a connection that was never activated makes the count 2^32 - 1 |
| TaskQueue.Source.Enqueue | Source/Kernel/iSCSITaskQueue.cpp:62-86 | The task joins the end; a start becomes pending only in an empty queue |
| TaskQueue.Source.CompleteCurrentTask | Source/Kernel/iSCSITaskQueue.cpp:91-119 | The head leaves and its tag is returned, zero for an empty queue; a start becomes pending if a task remains |
| TaskQueue.Source.CheckForWork | Source/Kernel/iSCSITaskQueue.cpp:122-153 | When the action is called and for which tag, and what becomes of the pending start |
| TaskQueue.Source.ClearTasksFromQueue | Source/Kernel/iSCSITaskQueue.cpp:156-173 | The queue ends empty and disabled, and the pending start stays as it was |
| TaskQueue.RunsAreValid | Source/Kernel/iSCSITaskQueue.cpp:62-173 | In every interleaving, a nonempty queue has exactly one of a pending start and a started head, tasks are started in FIFO order and each at most once, and the queue is what arrived and has not left |
| TaskQueue.AllArrive | Source/Kernel/iSCSITaskQueue.cpp:62-86 | Every task queued in a run has arrived, in order |
| TaskQueue.EnabledByRun | Source/Kernel/iSCSITaskQueue.cpp:122-173 | The queue is enabled if and only if the last event that enables, disables or clears it enables it, or there was none and it was |
| TaskQueue.DisabledStartsNothing | Source/Kernel/iSCSITaskQueue.cpp:122-153 | A disabled queue starts nothing until it is enabled again |
| TaskQueue.ClearedStaysEmpty | Source/Kernel/iSCSITaskQueue.cpp:122-173 | An empty queue, as clearing leaves it, stays empty and starts nothing until a task is queued, a pending start and enabling included |
| TaskQueue.ClearEmpties | Source/Kernel/iSCSITaskQueue.cpp:156-173 | Clearing empties and disables the queue, starts nothing and leaves the pending start as it was |
| TaskQueue.AtMostOneOutstanding | Source/Kernel/iSCSITaskQueue.cpp:122-153 | In every interleaving, the started tasks still queued are the head alone or none |
| TaskQueue.HeadIsNotForgotten | Source/Kernel/iSCSITaskQueue.cpp:122-153 | In every interleaving, the next check of the enabled queue starts a head that was not started, and does nothing otherwise |
| TaskQueue.ServingStartsAll | Source/Kernel/iSCSITaskQueue.cpp:62-153 | From every valid state, checking and completing as often as there are tasks empties the queue and starts exactly the tasks not started yet, in order of arrival |
| Preferences.Store.GetTargetConfigType | Source/User/iSCSI Framework/iSCSIPreferences.c:1087-1110 | The type of a target, or none for a missing target or an unknown string; a target without a type becomes static |
| Preferences.RepairEffect | Source/User/iSCSI Framework/iSCSIPreferences.c:1087-1110 | Only a missing type is filled in, with the static one |
| Preferences.Store.EnsurePortalsList | Source/User/iSCSI Framework/iSCSIPreferences.c:337-360 | Target and portal dictionary exist afterwards; what existed is kept |
| Preferences.Store.SetPortalForTarget | Source/User/iSCSI Framework/iSCSIPreferences.c:615-628 | The portal replaces the one with its address; a target without a portal dictionary is left alone |
| Preferences.SetPortalEffect | Source/User/iSCSI Framework/iSCSIPreferences.c:615-628 | The portal with the address is the one given, the other portals of the target, its type and manager and all other targets are as before |
| Preferences.Store.RemovePortalForTarget | Source/User/iSCSI Framework/iSCSIPreferences.c:630-644 | With one portal left the target goes, whatever the address; otherwise the portal with the address goes |
| Preferences.RemovePortalEffect | Source/User/iSCSI Framework/iSCSIPreferences.c:630-644 | The target goes if and only if it had one portal; otherwise it loses the portal with the address and keeps all else |
| Preferences.Store.AddStaticTarget | Source/User/iSCSI Framework/iSCSIPreferences.c:719-739 | A new static target with one portal; an existing target is left alone |
| Preferences.AddStaticEffect | Source/User/iSCSI Framework/iSCSIPreferences.c:719-739 | A new target is static and has the portal alone; an existing one, the other targets and all lists are as before |
| Preferences.Store.AddDynamicTarget | Source/User/iSCSI Framework/iSCSIPreferences.c:747-786 | A new target gets type, manager and portal; in any case the manager's list names it once |
| Preferences.AddDynamicEffect | Source/User/iSCSI Framework/iSCSIPreferences.c:747-786 | A new target has type, manager and portal, an existing one is as before; the manager's list names it, behind what it named before; other targets and lists are as before |
| Preferences.Store.RemoveTarget | Source/User/iSCSI Framework/iSCSIPreferences.c:788-799 | The entry goes; the portals' lists keep the name |
| Preferences.RemoveTargetEffect | Source/User/iSCSI Framework/iSCSIPreferences.c:788-799 | The target is gone, and all other targets and all lists are as before |
| Preferences.Store.SetTargetIQN | Source/User/iSCSI Framework/iSCSIPreferences.c:977-1002 | Only a static target is renamed; any entry under the new name is replaced |
| Preferences.RenameLeavesOthers | Source/User/iSCSI Framework/iSCSIPreferences.c:977-1002 | A dynamic target, or one of unknown type, is not renamed and nothing changes |
| Preferences.Store.AddSendTargetsDiscoveryPortal | Source/User/iSCSI Framework/iSCSIPreferences.c:1150-1183 | A new portal with an empty list; an existing portal keeps its list |
| Preferences.AddDiscoveryPortalEffect | Source/User/iSCSI Framework/iSCSIPreferences.c:1150-1183 | The portal exists, with the list it had or an empty one; targets and other lists are as before |
| Preferences.Store.RemoveSendTargetsDiscoveryPortal | Source/User/iSCSI Framework/iSCSIPreferences.c:1187-1214 | The portal goes with every target its list names |
| Preferences.RemoveDiscoveryPortalEffect | Source/User/iSCSI Framework/iSCSIPreferences.c:1187-1214 | The portal and its list are gone, exactly the targets that the list named are gone, and other lists are as before |
| Preferences.RemoveDiscoveryPortalKeepsNoOrphans | Source/User/iSCSI Framework/iSCSIPreferences.c:1187-1214 | Removing a portal orphans no target, and removes exactly the targets that its list names |
| Preferences.ApplyKeepsNoOrphans | Source/User/iSCSI Framework/iSCSIPreferences.c:615-799 | Every edit keeps each dynamic target with a manager that exists and lists it, and keeps the lists free of duplicates |
| Preferences.ReachableHasNoOrphans | Source/User/iSCSI Framework/iSCSIPreferences.c:615-1214 | No sequence of edits from empty preferences orphans a dynamic target or repeats a name in a list |
| Preferences.RenameKeepsTargetIff | Source/User/iSCSI Framework/iSCSIPreferences.c:977-1002 | Renaming a static target keeps it if and only if the new name differs from the old: a rename to the same name deletes it |
| Discovery.AddTargetForSendTargets | Source/User/iscsid/iSCSIDiscovery.c:31-65 | The nested loops over groups and portals merge all portals in order |
| Discovery.VisitTarget | Source/User/iscsid/iSCSIDiscovery.c:88-126 | A target configured otherwise is left alone, any other is added or extended |
| Discovery.UpdatePreferences | Source/User/iscsid/iSCSIDiscovery.c:73-162 | Both loops together are the update that the following rows are about; without a list of targets the call fails and changes nothing |
| Discovery.VisitEffect | Source/User/iscsid/iSCSIDiscovery.c:92-126 | A visit changes nothing but the target visited and the portal's list, in closed form |
| Discovery.UpdateEffect | Source/User/iscsid/iSCSIDiscovery.c:73-162 | A target that the record names is treated as its own report says, whatever else the record holds; one only in the portal's list is removed; any other is unchanged |
| Discovery.UpdateConverges | Source/User/iscsid/iSCSIDiscovery.c:73-162 | Afterwards every configured target in the list is in the record, every reported target with a portal is configured, static targets in the record and targets in neither are unchanged |
| Discovery.UpdateReports | Source/User/iscsid/iSCSIDiscovery.c:31-65 | A reported target that is new, or dynamic with a portal dictionary, is dynamic afterwards, belongs to the portal that reported it if it is new and to its old manager otherwise, has for each address the last portal reported with it, and keeps its portals at other addresses |
| Discovery.UpdateLists | Source/User/iscsid/iSCSIDiscovery.c:73-162 | The portal's list afterwards names what it named and the reported targets that are new and have a portal, and nothing else; other lists are as before |
| Discovery.UpdateRemovesIff | Source/User/iscsid/iSCSIDiscovery.c:134-155 | A configured target is removed if and only if the list names it and the record does not, whatever its type and manager |
| Discovery.StaleListingRemovesStatic | Source/User/iscsid/iSCSIDiscovery.c:134-155 | A concrete run in which a statically configured target is removed because its name was left in the list |
| Discovery.UpdateIdempotent | Source/User/iscsid/iSCSIDiscovery.c:73-162 | A second update with the same record changes nothing |
| Discovery.UpdateKeepsNoOrphans | Source/User/iscsid/iSCSIDiscovery.c:73-162 | An update orphans no dynamic target, for any portal and record |
| Discovery.ReachableByDiscoveryHasNoOrphans | Source/User/iscsid/iSCSIDiscovery.c:73-162 | No run of edits and updates from empty preferences orphans a dynamic target |
| Packing.Pack | Source/User/iscsid/iSCSIHBAInterface.c:271-291 | The buffer is the 64-bit sizes followed by the values, for any number of parameters of any sizes |
| Packing.PackOne | Source/User/iscsid/iSCSIHBAInterface.c:284-291 | One pass appends a value and a size field and disturbs nothing packed before |
| Packing.SizesAreLittleEndian | Source/User/iscsid/iSCSIHBAInterface.c:284-291 | The least significant byte of a 64-bit size comes first |
| Packing.Unpack | Source/Kernel/iSCSIHBAUserClient.cpp:472-484 | Too few parameters are refused; otherwise every position and size is that of the header |
| Packing.PackingRoundTrip | Source/Kernel/iSCSIHBAUserClient.cpp:475-484 | For any number of parameters of any sizes, what unpacking points at is what was packed |

## Left out

- Sockets: `EWOULDBLOCK` as an event of its own, and timeouts. A send either hands over the whole PDU or fails with one error; a receive takes what has arrived, up to what it wants.
- PduFraming.SendPDU: does not model `HandleConnectionTimeout`, which the driver calls on a send error before it returns the error: it drains the queue and may free the session that the caller goes on using.
- DataPath.BeginTask: does not model that teardown either, nor timestamps and task timeouts; takes the CDB as the 16 bytes of its field, shorter commands being padded, and the attribute as one of the five codes of the flags field. A task that is not found sends nothing and has no step here.
- Crc32c.Engine.Compute: the crc instructions are taken by definition, and the upper halves of the 64-bit registers, which the instructions leave zero, are not modelled. The two block loops share one method for their common body.
- DataPath.ProcessDataOut: requires a positive segment size, because the loop of the driver ends with a segment size of zero only when there is nothing to send or a send fails (`DataOutEndsIff`); the empty PDUs it sends until then are not modelled.
- DataPath.ProcessR2T: requires a positive segment size, for the same reason.
- WritePath.AnswerAll: assumes that sends succeed; `ProcessR2T` states what a failed send leaves.
- CommandNumbers.SendRequests: does not model the teardown of the connection on a refused send.
- WritePath.PerformWrite: assumes that sends succeed, a transfer below 2^32 bytes, which is the width of the transfer length field, and a buffer as long as the transfer. What a failed send leaves is stated by `ProcessDataOut` and `BeginTask`. That a buffer arrives although some PDU does not fit cannot be excluded for every buffer, because data may itself contain bytes that read as PDUs; what is excluded is that the target reads what was sent, and that every buffer arrives. Where all PDUs fit, the condition is exact for each buffer.
- ReadPath.ReceiveDataIn: takes Data-In PDUs that arrive as they were sent; damaged and partly arrived ones are in `ProcessDataIn`.
- ReadPath.ProcessDataIn: does not model a task that is not found, whose data is read and dropped.
- Headers are completed as values, not by writing through a pointer into the caller's header.
- Sessions and connections of `Sessions` are values in slots: aliasing, reference counts, event sources and locks are not captured. The connection slots record whether the queue is enabled; the queue itself is in `TaskQueue`.
- Sessions.VirtualHBA.ActivateConnection: takes identifiers in range, because the driver only compares them with the invalid identifier.
- Sessions.VirtualHBA.DeactivateConnection: the drain that happens inside it is modelled on its own in `Drain`.
- Preferences.Store.AddDynamicTarget: requires the discovery portal to exist, because the code hands the portal's list to `CFArrayGetCount` without checking that there is one.
- Discovery.AddTargetForSendTargets: requires the discovery portal to exist, for the same reason.
- Discovery.VisitTarget: requires the discovery portal to exist, for the same reason.
- Discovery.UpdatePreferences: requires the discovery portal to exist, for the same reason; logging out of a removed target and the log messages are not modelled.
- Preferences: absent top-level dictionaries count as empty ones; attributes that no cross-index uses (alias, digests, authentication, login) and the keychain are not modelled. Writing a configuration type directly, outside the operations listed above, is not an edit here.
- Packing.Unpack: takes a buffer that holds the header it announces, because the code reads past a shorter one, and positions as offsets from the start of the buffer; reading the values as strings and addresses is not modelled.
- Task management responses, SCSI responses with sense data, NOP and latency timing, asynchronous messages, rejects, text and login negotiation.
- Choice of a connection by bit rate, which the driver overrides with connection 0, and the loops that activate or deactivate all connections of a session.
- CHAP, daemon request dispatch, power and disk events, the IO registry, plain getters and setters, and the older duplicate of the user client.
