# A verified model of libphidget's protocol code

libphidget drives USB sensors and controllers. Most of it is plumbing, but a handful of files hold real
protocols: a whole RFID stack from tag strings down to pulse lengths and back, queues between threads, byte
streams cut into messages, packed samples, counters that tell old reports from new. This project models these
files in Dafny and proves what they are for.

How the files fit together:

- **Words, Blocks, Rings, Modulo, Octets, CStrings**: C integers as bit words, the order in which bits are sent,
  the 1024-slot rings, arithmetic, the C library's conversions.
- **Writing a tag**: Em4100Encode, FdxBEncode and PhidgetTagEncode turn strings into framed blocks; T5577 turns
  blocks into commands and radio packets and shows what a tag that obeys them then holds, locks and plays back;
  WrittenTags holds such a tag to the reader. FDX-B is the
  telegram of ISO 11785 with the code structure of ISO 11784; its checksum is that of ITU-T V.41, section 2
  (Crc), and its bit reversal is in BitReverse.
- **Reading a tag**: LineCode holds the Manchester and bi-phase state machines, Em4100, FdxB and PhidgetTag the
  frame decoders with their retry loops, Receiver the reading side as values, and Reader the object whose
  methods update rings, pointers and flags in place and refine those values. LineCodeSync, Em4100Sync, FdxBSync
  and PhidgetTagSync hold the synchronisation arguments. PulseRuns takes a run of packets apart into what each line
  decoder is fed, BiphaseRuns and LevelRuns say what the two make of any clean stream, and EndToEnd, FdxBRuns and
  PhidgetTagRuns are the theorems about whole runs over the three formats. CrossReadings, FalseReports, StaleReports
  and OldReports are runs in which something else is reported than was sent.
- **Writing to a device**: WriteQueue is the one-packet queue between senders and the write thread, step by
  step; LedQueue, LedRuns and LedDevice are the per-LED queue of the advanced LED board, the board, and the
  object; Gpp cuts firmware and tables into packets; Stepper and StepperDevice are the 4-bit packet counter,
  StepperRates the settings sent with it.
- **Reading from a device**: Gps, GpsRuns and GpsDevice cut NMEA and binary messages out of a 256-byte ring;
  IrCode, IrBiphase, IrRc6, IrDoubles, IrRoundTrip and IrDevice code and decode infrared codes; InterfaceKit takes
  samples apart.

Where the C code changes things step by step, the model has classes, arrays and loops, each proved against a
function; what the code promises is then proved about that function. Device sides (a tag, an LED board, a
firmware loader, a sampling front end) are modelled from what the code and its comments say the bytes mean.

What the proofs found in the code:

- A repeated tag is reported by its own decoder, however its pulses are cut into packets; no frame decoder meets an
  empty queue. The exception is a PhidgetTAG frame that passes for an FDX-B telegram: that is then reported first
  (PhidgetTagRuns.OnlyTheTagIff says when; CrossReadings.TextReadsAsTelegram: the text 3mnPYG631hA9). Besides, the
  Manchester decoder takes the cell levels of a bi-phase stream for bits: an EM4100 tag is reported beside the real one
  just when they hold its frame (LevelRuns.TagAmongLevelsIff, CrossReadings.BothReported).
- With an empty queue each frame decoder skips its header test and checks whatever the ring still holds; the
  EmptyQueue lemmas of Em4100Sync, FdxBSync and PhidgetTagSync say what it then finds. Streams that are not a repeated
  tag can lead there: StaleReports.TagOfZeros (a tag 0000000000 after a single frame) and
  OldReports.OldTelegramReported (a telegram of which only a part had come in).
- The PhidgetTAG decoder does not clear its checksum before a retry. After a failed window a good frame is found just
  when the bits read from that window are all set in its own checksum (PhidgetTagSync.FoundAfterFailureIff). One wrong
  bit in one copy hides the later copies until the queue of 1023 bits overflows (FalseReports.OneBitHidesTheTag).
- A tag written with upper-case or 0x-prefixed digits reads back in another spelling (Em4100Encode.ReportedVerbatim),
  so the wait for the very string written cannot succeed; an eight-bit PhidgetTAG character is never read back.
- On POSIX the write thread sends a packet of zeros after a spurious wake; without one, and on Windows at all times,
  it never does, timeouts included. On POSIX too a waiting sender can spin, because the event set for one packet
  comes after the reset for the next. No packet is lost by either.
- Writing a tag may succeed although a block never went out, or was locked: the error of a refused data packet is lost
  in writeRaw (T5577.LostBlockUnnoticed). So may a firmware upgrade: its result is the device's response, whatever the
  sends gave. The comment at cphidgetrfid.c:1692 says RF/63; that field of the configuration stands for 64 clocks.
- A binary GPS response that announces length 249 keeps the parser in its loop for ever, longer ones are cut short
  (Gps.ResponseWholeIff), and a $GP line taken while
  fewer than six bytes are queued is not called NMEA; apart from this the cut into packets does not matter.
- An LED whose on bit was not read at attachment is believed dark and cannot be turned off by asking for 0.
- Pulse-coded infrared codes of more than a byte may lose the wrong space: the bit looked at is not the last one. A
  bi-phase code is decoded as it was sent just when it begins with two ones (IrRoundTrip.BiphaseRoundTripIff), an RC-6
  code when a 0 follows its leading 1 early enough and its lengths are recognised (IrRc6.DecodeSixIff); one of the three
  special cases for RC-6 never is (IrRc6.AlternatingLost). An RC-6 code that ends with its double bit as a 0 goes out
  with half of that pulse (IrBiphase.LengthsAreLevels).
- Pulse and space codes whose long length is twice all others, the default lengths of Sony codes among them, are taken
  for bi-phase if they have too few ones (IrDoubles.DoubledRoundTripIff).
- A firmware image of more than 0xffff bytes loses its upper part although every send succeeds.
- Sixteen stepper commands lost in a row make the motor look stopped.

All contracts hold for every input they name.

## Model

| member | source | states |
|---|---|---|
| Crc.UpdateIsDivision | libphidget-2.1.8.20150410/cphidgetrfid.c:833-841 | one call of the shift-and-xor CRC is eight steps of bitwise division by x^16+x^12+x^5+1 |
| Crc.UpdateAllIsDivision | libphidget-2.1.8.20150410/cphidgetrfid.c:833-841 | the CRC of any message, from any start, is the remainder of that division over all its bits |
| Crc.ComputeCrc | libphidget-2.1.8.20150410/cphidgetrfid.c:984-987 | the byte loop computes that remainder |
| Crc.DivideLinear | libphidget-2.1.8.20150410/cphidgetrfid.c:833-841 | the remainder is linear over exclusive or, in the start value and in the message |
| Crc.DivideInjective | libphidget-2.1.8.20150410/cphidgetrfid.c:833-841 | two start values never meet again: equal remainders over equal bits come from equal starts |
| Crc.BurstDetected | libphidget-2.1.8.20150410/cphidgetrfid.c:833-841 | messages of any length that differ, but only inside 16 consecutive bits, have different CRCs |
| BitReverse.ReverseMirrors | libphidget-2.1.8.20150410/cphidgetrfid.c:844-853 | for every 64-bit word, bit k of the result is bit 63 - k of the argument |
| CStrings.StrtollOfDigits | libphidget-2.1.8.20150410/cphidgetrfid.c:872 | a string of digits converts to the number it writes in its base |
| Blocks.StreamOfHalves | libphidget-2.1.8.20150410/cphidgetrfid.c:894-895 | storing a 64-bit word as two 32-bit blocks sends its bits in order, highest first |
| Em4100.CheckBody | libphidget-2.1.8.20150410/cphidgetrfid.c:1052-1073 | the loops over rows and columns accept a 64-bit window just when every row and column sums to zero and the stop bit is clear |
| Em4100.Strip | libphidget-2.1.8.20150410/cphidgetrfid.c:1075-1085 | the bytes handed on are the 40 data bits, four to a row, without the parity bits |
| Em4100.Decode | libphidget-2.1.8.20150410/cphidgetrfid.c:1009-1102 | finds exactly the first window behind the retries that passes every check, reports its 40 bits, and moves the read pointer past 64 bits; otherwise changes nothing |
| Em4100.HeaderAt | libphidget-2.1.8.20150410/cphidgetrfid.c:1026-1035 | nine ones at a ring position, or not |
| Em4100.FindStart | libphidget-2.1.8.20150410/cphidgetrfid.c:1022-1043 | stops at the first header from which 64 bits are queued, or gives up |
| Em4100.TryFrame | libphidget-2.1.8.20150410/cphidgetrfid.c:1045-1085 | the copied window is accepted just when it passes the checks, and then its bytes hold its data |
| Em4100.Search | libphidget-2.1.8.20150410/cphidgetrfid.c:1016-1043 | the window found lies inside the range looked at and is a frame; ends for every ring content, one position a retry |
| Em4100Sync.NoFalseStart | libphidget-2.1.8.20150410/cphidgetrfid.c:1028-1073 | in a frame repeated without end, no window that starts elsewhere than at the frame passes the checks |
| Em4100Sync.FramesAreWhereSent | libphidget-2.1.8.20150410/cphidgetrfid.c:1022-1073 | a window of such a stream passes all checks just when it starts where a frame starts |
| Em4100Sync.DecodeRepeatedFrame | libphidget-2.1.8.20150410/cphidgetrfid.c:1009-1102 | entered at any phase with a non-empty queue, the decoder finds nothing or exactly the frame, and with 127 bits queued it finds it |
| Em4100Sync.QueueOnly | libphidget-2.1.8.20150410/cphidgetrfid.c:1016-1045 | with something queued, what is found is the first whole frame of the queue; the other slots do not matter |
| Em4100Sync.EmptyQueue | libphidget-2.1.8.20150410/cphidgetrfid.c:1018-1045 | with equal pointers the slots at the read pointer are reported just when stop bit and parities fit, header or none; failing that, a frame is found just when the ring holds one further on |
| Em4100Sync.MinimumDistance | libphidget-2.1.8.20150410/cphidgetrfid.c:1028-1073 | two different words that pass the checks differ in at least three bits |
| Em4100Sync.TwoErrorsDetected | libphidget-2.1.8.20150410/cphidgetrfid.c:1028-1073 | a frame with one or two bits changed fails the checks |
| Em4100Encode.PlaceData | libphidget-2.1.8.20150410/cphidgetrfid.c:874-880 | the loop puts the 40 data bits, highest first, into the rows under the header |
| Em4100Encode.AddParity | libphidget-2.1.8.20150410/cphidgetrfid.c:881-892 | the loop adds the even parity of every row and column |
| Em4100Encode.Encode | libphidget-2.1.8.20150410/cphidgetrfid.c:859-899 | accepts just ten characters, or 0x and ten, when two blocks fit; the blocks stream out as a frame whose data are the low 40 bits of the number |
| Em4100Encode.CodedWordIsFrame | libphidget-2.1.8.20150410/cphidgetrfid.c:874-895 | the word built from header, data and parity passes every check of the decoder and carries the data |
| Em4100Encode.ReportedText | libphidget-2.1.8.20150410/cphidgetrfid.c:1088-1090 | for hex digits the reader reports the digits written, in lower case and without 0x |
| Em4100Encode.ReportedVerbatim | libphidget-2.1.8.20150410/cphidgetrfid.c:859-899 | what is reported equals the string written just when that is ten lower-case hex digits |
| Em4100Encode.WrittenTagReadsBack | libphidget-2.1.8.20150410/cphidgetrfid.c:859-1102 | blocks from the encoder, repeated and entered anywhere, decode to the digits written once 127 bits are queued |
| FdxB.Decode | libphidget-2.1.8.20150410/cphidgetrfid.c:1104-1225 | finds the first window behind the retries (which move on twelve positions) with header, control bits and checksum in order, reports its country and identifier, and moves the read pointer past 128 bits |
| FdxB.FindStart | libphidget-2.1.8.20150410/cphidgetrfid.c:1119-1145 | stops at the first header from which 128 bits are queued, or gives up |
| FdxB.TryFrame | libphidget-2.1.8.20150410/cphidgetrfid.c:1147-1214 | accepted just when control bits and checksum agree, and then the text is that of the window |
| FdxB.ReadData | libphidget-2.1.8.20150410/cphidgetrfid.c:1153-1167 | the eight bytes are the 64 data bits between the control bits, with their bits mirrored for the report |
| FdxB.ReadChecksum | libphidget-2.1.8.20150410/cphidgetrfid.c:1169-1181 | the stored checksum is read past its control bits |
| FdxB.Format | libphidget-2.1.8.20150410/cphidgetrfid.c:1198-1212 | the text is the 10-bit country in three digits and the 38-bit identifier in twelve |
| FdxBSync.HeaderOnlyAtStart | libphidget-2.1.8.20150410/cphidgetrfid.c:1126-1139 | ten zeros and a one occur in a repeated frame only where the frame starts |
| FdxBSync.DecodeRepeatedFrame | libphidget-2.1.8.20150410/cphidgetrfid.c:1104-1225 | from any phase with a non-empty queue the decoder finds nothing or exactly the frame, and with 255 bits queued it finds it |
| FdxBSync.QueueOnly | libphidget-2.1.8.20150410/cphidgetrfid.c:1116-1145 | with something queued, what is found depends on the queued bits alone |
| FdxBSync.SearchFinds | libphidget-2.1.8.20150410/cphidgetrfid.c:1114-1196 | in any bits the search finds the first window that passes the checks behind a header, leaving out headers that stand right behind one that was tried |
| FdxBSync.EmptyQueue | libphidget-2.1.8.20150410/cphidgetrfid.c:1114-1196 | with equal pointers the slots at the read pointer are reported just when control bits and checksum fit, header or none; failing that, something is found just when such a window stands anywhere in the ring |
| FdxBSync.BurstRejected | libphidget-2.1.8.20150410/cphidgetrfid.c:1185-1196 | a frame whose data differ inside 16 consecutive bits, the stored checksum intact, is rejected |
| FdxBEncode.PlaceFirst | libphidget-2.1.8.20150410/cphidgetrfid.c:942-947 | the loop for the first 64 bits sets the header, the control bits and 48 data bits |
| FdxBEncode.PlaceSecond | libphidget-2.1.8.20150410/cphidgetrfid.c:944-952 | the loop for the rest sets 16 data bits, the checksum and the trailer between control bits |
| FdxBEncode.EncodeWord | libphidget-2.1.8.20150410/cphidgetrfid.c:934-957 | the four blocks stream out as a frame that carries the mirrored word |
| FdxBEncode.Encode | libphidget-2.1.8.20150410/cphidgetrfid.c:905-961 | accepts just 15 characters whose identifier fits 38 bits, when four blocks fit; the blocks stream out as a frame with the animal bit, country and identifier |
| FdxBEncode.AcceptedIff | libphidget-2.1.8.20150410/cphidgetrfid.c:914-923 | of strings of digits just those of fifteen are accepted whose last twelve are not above 274877906943 |
| FdxBEncode.ReportedText | libphidget-2.1.8.20150410/cphidgetrfid.c:905-961 | for 15 digits the telegram reads back as the same digits |
| FdxBEncode.ReportedVerbatim | libphidget-2.1.8.20150410/cphidgetrfid.c:905-961 | for an accepted string the telegram reads back unchanged just when it is all digits |
| FdxBEncode.WrittenTagReadsBack | libphidget-2.1.8.20150410/cphidgetrfid.c:905-1225 | blocks from the encoder, repeated and entered anywhere, are reported as written once 255 bits are queued |
| PhidgetTag.Decode | libphidget-2.1.8.20150410/cphidgetrfid.c:1227-1330 | finds the first window behind the retries (fifteen positions each) whose control bits and checksum agree, the checksum read being or-ed into what earlier tries left; reports the characters up to the first zero |
| PhidgetTag.FindStart | libphidget-2.1.8.20150410/cphidgetrfid.c:1240-1266 | stops at the first header from which 224 bits are queued, or gives up |
| PhidgetTag.TryFrame | libphidget-2.1.8.20150410/cphidgetrfid.c:1268-1319 | accepted just when control bits and checksum agree with what crcRead then holds |
| PhidgetTag.ReadCrc | libphidget-2.1.8.20150410/cphidgetrfid.c:1274-1285 | sixteen bits of checksum are or-ed into the value left by the tries before |
| PhidgetTag.ReadChars | libphidget-2.1.8.20150410/cphidgetrfid.c:1287-1303 | 24 characters of seven bits, each behind its control bit |
| PhidgetTagSync.HeaderOnlyAtStart | libphidget-2.1.8.20150410/cphidgetrfid.c:1247-1260 | the header pattern occurs in a repeated frame only where the frame starts |
| PhidgetTagSync.DecodeRepeatedFrame | libphidget-2.1.8.20150410/cphidgetrfid.c:1227-1330 | from any phase with a non-empty queue the decoder finds nothing or exactly the frame, no check failing on the way, and with 447 bits queued it finds it |
| PhidgetTagSync.QueueOnly | libphidget-2.1.8.20150410/cphidgetrfid.c:1237-1266 | with something queued, what is found depends on the queued bits alone |
| PhidgetTagSync.SearchFinds | libphidget-2.1.8.20150410/cphidgetrfid.c:1235-1319 | in any bits the search finds the first window behind a header it tries that passes the checks with the checksum bits of all windows tried before or-ed in |
| PhidgetTagSync.EmptyQueue | libphidget-2.1.8.20150410/cphidgetrfid.c:1235-1319 | with equal pointers the slots at the read pointer are reported just when control bits and checksum fit, header or none; failing that, something is found just when such a window stands anywhere in the ring |
| PhidgetTagSync.SearchRepetition | libphidget-2.1.8.20150410/cphidgetrfid.c:1237-1329 | the search, come to a repetition of a frame with anything left in crcRead: the first copy is found if the checksum of the frame covers what is left, and otherwise none, however many there are |
| PhidgetTagSync.FoundAfterFailureIff | libphidget-2.1.8.20150410/cphidgetrfid.c:1237-1329 | a window that fails, then a repeated frame: the frame is found just when the checksum bits of the window are all set in its own |
| PhidgetTagEncode.HeaderBlock | libphidget-2.1.8.20150410/cphidgetrfid.c:989-992 | the first block holds the header and both checksum bytes behind control bits |
| PhidgetTagEncode.Encode | libphidget-2.1.8.20150410/cphidgetrfid.c:967-1007 | accepts just strings of up to 24 characters when seven blocks fit; every block is as the shifts and ors leave it, with char signed or not |
| PhidgetTagEncode.CodedIsFrame | libphidget-2.1.8.20150410/cphidgetrfid.c:967-1007 | for seven-bit characters the blocks stream out as a frame that carries the padded string |
| PhidgetTagEncode.WrittenTagReadsBack | libphidget-2.1.8.20150410/cphidgetrfid.c:967-1330 | blocks of a seven-bit string, repeated and entered anywhere, are reported as the string once 447 bits are queued |
| PhidgetTagEncode.EightBitNeverReported | libphidget-2.1.8.20150410/cphidgetrfid.h:118-129 | a string with an eight-bit character is never what the decoder reports |
| LineCode.ManSplit | libphidget-2.1.8.20150410/cphidgetrfid.c:1387-1482 | how the pulses are cut into calls of the Manchester decoder does not matter |
| LineCode.BipSplit | libphidget-2.1.8.20150410/cphidgetrfid.c:1332-1385 | the same for the bi-phase decoder as long as every pulse is short or long |
| LineCodeSync.ManLongPulse | libphidget-2.1.8.20150410/cphidgetrfid.c:1395-1433 | the first long pulse fixes the phase: a wrong one is noticed and the bits pushed so far are thrown away |
| LineCodeSync.ManShortPulse | libphidget-2.1.8.20150410/cphidgetrfid.c:1435-1476 | a short pulse keeps a decoder that is not yet in step either fresh or in one of the two phases |
| LineCodeSync.ManStepSynced | libphidget-2.1.8.20150410/cphidgetrfid.c:1390-1480 | one pulse of the code keeps a decoder in step and pushes the next bit when it is due |
| LineCodeSync.ManFoldSynced | libphidget-2.1.8.20150410/cphidgetrfid.c:1387-1482 | in the right phase, pulses of the code push exactly the bits sent, for any number of pulses and any lengths |
| LineCodeSync.ManFold | libphidget-2.1.8.20150410/cphidgetrfid.c:1387-1482 | from a reset, in either phase, once a long pulse has been seen the queue holds exactly the latest bits sent |
| LineCodeSync.BipFold | libphidget-2.1.8.20150410/cphidgetrfid.c:1332-1385 | the same for bi-phase |
| LineCodeSync.ManIsBip | libphidget-2.1.8.20150410/cphidgetrfid.c:1567-1607 | Manchester pulses of a bit string are bi-phase pulses of its changes, so the other decoder sees those |
| Receiver.QuantizeTolerance | libphidget-2.1.8.20150410/cphidgetrfid.c:340-364 | a received length is taken for one of five lengths: always within six clocks of it, never more than eight away |
| Receiver.GapForgets | libphidget-2.1.8.20150410/cphidgetrfid.c:1493-1505 | a gap at the end of the ring, whatever came before it, leaves nothing unread, no known lengths and both decoders reset |
| Receiver.EnqueueLatest | libphidget-2.1.8.20150410/cphidgetrfid.c:366-374 | the ring keeps the latest 1023 pulses |
| Receiver.ScanExact | libphidget-2.1.8.20150410/cphidgetrfid.c:1513-1546 | scanning fresh pulses goes on to a gap or the end if they come in two lengths, one twice the other, and else stops at the first that does not fit all those before it |
| Receiver.MisfitDropped | libphidget-2.1.8.20150410/cphidgetrfid.c:1513-1546 | a first pulse that fits neither length in use is dropped and everything starts over behind it |
| Receiver.AnalyzeShrinks | libphidget-2.1.8.20150410/cphidgetrfid.c:1485-1627 | analyze_data never leaves more unread than it found |
| Reader.RfidReader.ResetValuesFromSpace | libphidget-2.1.8.20150410/cphidgetrfid.c:805-828 | clears lengths, pointers and flags of both decoders, nothing else |
| Reader.RfidReader.PushMan | libphidget-2.1.8.20150410/cphidgetrfid.c:1413-1421 | a bit goes into the Manchester ring; on a full ring the oldest is lost |
| Reader.RfidReader.PushBiphase | libphidget-2.1.8.20150410/cphidgetrfid.c:1341-1350 | the same for the bi-phase ring |
| Reader.RfidReader.ManPulse | libphidget-2.1.8.20150410/cphidgetrfid.c:1392-1476 | one pulse of the Manchester loop |
| Reader.RfidReader.BiphasePulse | libphidget-2.1.8.20150410/cphidgetrfid.c:1337-1379 | one pulse of the bi-phase loop; false for a length that is neither |
| Reader.RfidReader.AddManchesterData | libphidget-2.1.8.20150410/cphidgetrfid.c:1387-1482 | the loop over the unread pulses does to ring, pointers and flags what the Manchester steps say |
| Reader.RfidReader.AddBiphaseData | libphidget-2.1.8.20150410/cphidgetrfid.c:1332-1385 | the same for bi-phase; the first unusable pulse empties the queue and stops |
| Reader.RfidReader.ScanRate | libphidget-2.1.8.20150410/cphidgetrfid.c:1513-1546 | reads on while the pulses fit two lengths, one twice the other, and stops at a gap or a misfit |
| Reader.RfidReader.LookForEm4100 | libphidget-2.1.8.20150410/cphidgetrfid.c:1575-1576 | a frame found is reported in hex and its bits are consumed |
| Reader.RfidReader.LookForPhidgetTag | libphidget-2.1.8.20150410/cphidgetrfid.c:1604-1605 | a PhidgetTAG frame found is reported and its bits are consumed |
| Reader.RfidReader.LookForFdxB | libphidget-2.1.8.20150410/cphidgetrfid.c:1606-1607 | an FDX-B frame found is reported and its bits are consumed |
| Reader.RfidReader.DropPulse | libphidget-2.1.8.20150410/cphidgetrfid.c:1620-1626 | the pulse is skipped and everything reset |
| Reader.RfidReader.SkipSpaces | libphidget-2.1.8.20150410/cphidgetrfid.c:1494-1505 | gaps in front are skipped, each with a reset; what analyze_data will do is unchanged |
| Reader.RfidReader.OrderClocks | libphidget-2.1.8.20150410/cphidgetrfid.c:1557-1563 | the shorter length becomes the short one |
| Reader.RfidReader.DecodeBatch | libphidget-2.1.8.20150410/cphidgetrfid.c:1564-1608 | one batch through both line decoders and all frame decoders, in this order |
| Reader.RfidReader.AnalyzeOnce | libphidget-2.1.8.20150410/cphidgetrfid.c:1507-1626 | one pass from label start: drop a misfit, wait, or decode; goes round again only with fewer unread pulses |
| Reader.RfidReader.Settle | libphidget-2.1.8.20150410/cphidgetrfid.c:1546-1616 | with the lengths scanned: wait, move past a gap, or decode the batch |
| Reader.RfidReader.DecodePulses | libphidget-2.1.8.20150410/cphidgetrfid.c:1557-1612 | lengths ordered, batch decoded, read pointer moved past it |
| Reader.RfidReader.AnalyzeData | libphidget-2.1.8.20150410/cphidgetrfid.c:1485-1627 | the whole loop, for every ring content: state and reports as specified, and it ends |
| Reader.RfidReader.PushPulse | libphidget-2.1.8.20150410/cphidgetrfid.c:366-374 | a pulse is stored; on a full ring the oldest is lost |
| Reader.RfidReader.DataInput | libphidget-2.1.8.20150410/cphidgetrfid.c:336-397 | a packet of lengths is rounded, stored and analysed |
| EndToEnd.FindsOnlyTheTag | libphidget-2.1.8.20150410/cphidgetrfid.c:1009-1102 | on a decoder in step with a repeated tag, the search gives the tag or nothing and stays in step |
| EndToEnd.FindsNothingElse | libphidget-2.1.8.20150410/cphidgetrfid.c:1104-1330 | in a stream of period 64 neither bi-phase format is ever found |
| EndToEnd.AnalyzeFits | libphidget-2.1.8.20150410/cphidgetrfid.c:1515-1616 | on pulses of two lengths without a gap analyze_data waits or decodes one batch of everything |
| EndToEnd.StepWaiting | libphidget-2.1.8.20150410/cphidgetrfid.c:336-397 | one packet while only one length is known: still waiting, or in step with the tag or nothing reported |
| EndToEnd.StepTracking | libphidget-2.1.8.20150410/cphidgetrfid.c:336-397 | one packet in step: still in step, the tag or nothing reported, no bit lost before the first report |
| EndToEnd.WaitingIsShort | libphidget-2.1.8.20150410/cphidgetrfid.c:1546-1555 | no frame keeps the reader waiting for more than 127 pulses |
| EndToEnd.RunInvariant | libphidget-2.1.8.20150410/cphidgetrfid.c:336-397 | over any number of packets: only the tag is reported, and the reader is waiting for a second length or both decoders are in step |
| EndToEnd.LongAfterWholeFrames | libphidget-2.1.8.20150410/cphidgetrfid.c:1009-1025 | in a repeated frame the pulse after the last bit of a frame is a long one, so an empty queue never meets a decoder |
| EndToEnd.OnlyTheTagIsReported | libphidget-2.1.8.20150410/cphidgetrfid.c:336-1627 | for every EM4100 frame repeated without end, from any half-bit, with jitter inside the bands, cut into packets in any way: nothing but the tag is ever reported, and by 384 pulses it has been |
| EndToEnd.GapResets | libphidget-2.1.8.20150410/cphidgetrfid.c:1493-1505 | a packet that ends in a gap brings any state back to where that theorem starts |
| EndToEnd.MisfitForgets | libphidget-2.1.8.20150410/cphidgetrfid.c:336-397 | a packet that begins with a pulse that fits neither length in use is read as the rest of it would be after opening the device |
| EndToEnd.NextTagIsReported | libphidget-2.1.8.20150410/cphidgetrfid.c:336-1627 | a tag that follows another without a gap, its first pulse fitting neither of the lengths in use: nothing but the new tag is reported from then on, and by 385 pulses it has been |
| EndToEnd.WrittenStringIsReported | libphidget-2.1.8.20150410/cphidgetrfid.c:859-1627 | encoder, repetition, line code, jitter, packets and reader together: the hex digits written are reported and nothing else |
| EndToEnd.ReadPackets | libphidget-2.1.8.20150410/cphidgetrfid.c:336-397 | the reader object, fed packet by packet, does what the run of the specification says |
| StaleReports.TagOfZeros | libphidget-2.1.8.20150410/cphidgetrfid.c:336-1627 | a run from a reader just opened: the frame of a tag, with which a packet ends, then the first half of a zero: the tag is reported and then a tag 0000000000 |
| FalseReports.OneBitHidesTheTag | libphidget-2.1.8.20150410/cphidgetrfid.c:336-1627 | runs over a repeated PhidgetTAG frame whose first copy has one checksum bit wrong: the first report is that of the tag, and comes just when 1025 bits have, so that the queue has overflowed |
| FalseReports.FoundAtTheLatest | libphidget-2.1.8.20150410/cphidgetrfid.c:336-1627 | whatever was received before, by the time 1036 bits of a repeated PhidgetTAG frame have come something has been reported |
| OldReports.OldTelegramReported | libphidget-2.1.8.20150410/cphidgetrfid.c:336-1627 | a run from a reader just opened: the rest of an FDX-B telegram whose header was missed, a PhidgetTAG frame with which a packet ends, the first half of a zero: the tag twice, and then the telegram |
| PulseRuns.RunInPieces | libphidget-2.1.8.20150410/cphidgetrfid.c:336-1627 | a run over any pulses of two lengths: nothing while there is one length, then every packet goes through both line decoders with their frame decoders, and the reports are those of the two |
| BiphaseRuns.FirstReport | libphidget-2.1.8.20150410/cphidgetrfid.c:1332-1608 | runs over any bi-phase stream: the first report of this side is made just when the queue, from the first long pulse on, reaches the end of the window looked for |
| BiphaseRuns.RepeatedFrame | libphidget-2.1.8.20150410/cphidgetrfid.c:336-1627 | runs over a repeated frame that begins with a zero, cut into packets in any way: nothing else is reported on the bi-phase side, the queue never runs empty, and within six frame lengths of pulses the frame has been reported |
| LevelRuns.BipIsMan | libphidget-2.1.8.20150410/cphidgetrfid.c:1387-1482 | a bi-phase stream whose levels alternate is the Manchester stream of its cell levels, the running parity of its bits |
| LevelRuns.TagAmongLevelsIff | libphidget-2.1.8.20150410/cphidgetrfid.c:336-1627 | runs over a repeated bi-phase frame: an EM4100 tag is reported just when some 64 consecutive cell levels pass for its frame |
| FdxBRuns.FindsTheTelegram | libphidget-2.1.8.20150410/cphidgetrfid.c:1104-1225 | on a decoder in step with a repeated telegram, the search reports it as soon as it is complete and skips 128 bits, and until then does nothing |
| FdxBRuns.NoPhidgetTagIn | libphidget-2.1.8.20150410/cphidgetrfid.c:1227-1330 | in a repeated FDX-B telegram the PhidgetTAG decoder never finds anything |
| FdxBRuns.OnlyTheTelegramIsReported | libphidget-2.1.8.20150410/cphidgetrfid.c:336-1627 | for every FDX-B telegram repeated without end, at either polarity, entered anywhere, jittered and cut into packets in any way: no other FDX-B or PhidgetTAG report is ever made, by 768 pulses this one has been, and an EM4100 tag is reported just when the cell levels hold its frame |
| FdxBRuns.WrittenNumberIsReported | libphidget-2.1.8.20150410/cphidgetrfid.c:905-1627 | encoder, repetition, bi-phase code, jitter, packets and reader together: the number written is reported |
| CrossReadings.HiddenTag | libphidget-2.1.8.20150410/cphidgetrfid.c:1009-1085 | for every EM4100 frame whose bits change where a telegram has its ones there is a telegram whose cell levels hold it |
| CrossReadings.TwinTelegram | libphidget-2.1.8.20150410/cphidgetrfid.c:1009-1085 | such a telegram for the tag 8088010208 |
| CrossReadings.BothReported | libphidget-2.1.8.20150410/cphidgetrfid.c:336-1627 | runs over it of that polarity report the telegram and an EM4100 tag |
| PhidgetTagRuns.FindsTheTag | libphidget-2.1.8.20150410/cphidgetrfid.c:1227-1330 | on a decoder in step with a repeated frame, the search reports it as soon as it is complete and skips 224 bits, and until then does nothing |
| PhidgetTagRuns.SeenAsTelegramIff | libphidget-2.1.8.20150410/cphidgetrfid.c:1104-1225 | the FDX-B decoder finds something in a repeated PhidgetTAG frame just when what follows the end of the header passes its checks |
| PhidgetTagRuns.OnlyTheTagIsReported | libphidget-2.1.8.20150410/cphidgetrfid.c:336-1627 | for every PhidgetTAG frame that does not pass for an FDX-B telegram, repeated without end, at either polarity, entered anywhere, jittered and cut into packets in any way: no other PhidgetTAG or FDX-B report is ever made, by 1344 pulses this one has been, and an EM4100 tag is reported just when the cell levels hold its frame |
| PhidgetTagRuns.FalseTelegramIsReported | libphidget-2.1.8.20150410/cphidgetrfid.c:336-1627 | over a frame that passes for a telegram the first report of the bi-phase side is that telegram, and by 1150 pulses it has been made |
| PhidgetTagRuns.OnlyTheTagIff | libphidget-2.1.8.20150410/cphidgetrfid.c:336-1627 | of 1150 pulses or more, nothing but the tag is reported on the bi-phase side just when the frame does not pass for a telegram |
| CrossReadings.TextNotQuiet | libphidget-2.1.8.20150410/cphidgetrfid.c:967-1225 | the frame of the text 3mnPYG631hA9 passes for a telegram |
| CrossReadings.TextReadsAsTelegram | libphidget-2.1.8.20150410/cphidgetrfid.c:336-1627 | written to a tag and read back, that text is reported as an FDX-B telegram first |
| PhidgetTagRuns.WrittenTextIsReported | libphidget-2.1.8.20150410/cphidgetrfid.c:967-1627 | encoder, repetition, bi-phase code, jitter, packets and reader together: the text written is reported, or if its frame passes for a telegram, that |
| T5577.SendRawData | libphidget-2.1.8.20150410/cphidgetrfid.c:767-803 | refuses more than 2040 bits; otherwise the packets carry the bits of the data, in order, none lost or repeated, up to the first packet that is refused, whose error is returned |
| T5577.FirstByte | libphidget-2.1.8.20150410/cphidgetrfid.c:1634-1636 | opcode, page, lock and the five highest data bits |
| T5577.ByteAt | libphidget-2.1.8.20150410/cphidgetrfid.c:1637-1639 | eight data bits from a given place |
| T5577.LastByte | libphidget-2.1.8.20150410/cphidgetrfid.c:1640-1641 | the three lowest data bits and the block number |
| T5577.WriteRaw | libphidget-2.1.8.20150410/cphidgetrfid.c:2261-2315 | the packets carry the data up to a refused one, and none if the timing packet is refused; only the latter is reported |
| T5577.WriteBlock | libphidget-2.1.8.20150410/cphidgetrfid.c:1629-1653 | the 38 bits sent are opcode, page, lock, data and block number, if both packets are accepted; the result is that of the timing packet |
| T5577.ObeyCommand | libphidget-2.1.8.20150410/cphidgetrfid.c:1634-1641 | a tag that obeys the command stores just that block and locks it as told, unless the block is locked: then nothing changes |
| T5577.ConfigFields | libphidget-2.1.8.20150410/cphidgetrfid.c:1687-1706 | each configuration word asks the tag to play back just the blocks its encoder delivers, in the line code its reader side decodes (Manchester for EM4100, bi-phase for the others), at 64 or 32 clocks to a bit |
| T5577.BlocksWritten | libphidget-2.1.8.20150410/cphidgetrfid.c:1708-1714 | after the first k commands blocks 1 to k that were not locked hold the data, and are locked if the caller asked for it, as far as it arrived; all else, data and locks, is as it was |
| T5577.EncodeTag | libphidget-2.1.8.20150410/cphidgetrfid.c:1687-1706 | each protocol goes through its encoder, with room for seven blocks |
| T5577.WriteTag | libphidget-2.1.8.20150410/cphidgetrfid.c:1680-1725 | commands go out up to the first whose timing packet is refused, with that result: the blocks, the configuration, the reset, bit for bit; any tag then holds in every block that was not locked what was sent there, if it arrived, and has it locked just when the caller asked for it; every other block and lock is as before |
| T5577.PlaysBack | libphidget-2.1.8.20150410/cphidgetrfid.c:1680-1725 | when all has arrived at a tag without locks, it plays back exactly the blocks encoded from the string |
| T5577.LostBlockUnnoticed | libphidget-2.1.8.20150410/cphidgetrfid.c:2261-2315 | with a data packet refused, or a block locked, and all timing packets accepted the call succeeds and the tag lacks a block |
| T5577.WriteReset | libphidget-2.1.8.20150410/cphidgetrfid.c:1656-1674 | the reset is the two bits 00, if both packets are accepted |
| T5577.LockedForGood | libphidget-2.1.8.20150410/cphidgetrfid.c:1635 | whatever commands a tag is sent, a locked block and its lock stay as they are |
| T5577.LockedTagStays | libphidget-2.1.8.20150410/cphidgetrfid.c:1676-1725 | a tag written with lock, everything having arrived, plays the same blocks back whatever it is sent later |
| T5577.UnlockedTagIsRewritten | libphidget-2.1.8.20150410/cphidgetrfid.c:1676-1725 | a write without lock, whatever of it arrived, leaves a tag without locks; a second write that arrives replaces the first, and its lock argument decides every lock |
| WrittenTags.StillPlays | libphidget-2.1.8.20150410/cphidgetrfid.c:1676-1725 | right after a delivered write, and with lock after any later commands too, the tag plays the encoded blocks in the line code and at the bit length of its protocol |
| WrittenTags.DigitsAreRead | libphidget-2.1.8.20150410/cphidgetrfid.c:336-1725 | string, encoder, commands, tag, its own configuration, line code, jitter, packets and reader together: the hex digits written are reported and nothing else, with lock even after any later commands |
| WrittenTags.NumberIsRead | libphidget-2.1.8.20150410/cphidgetrfid.c:336-1725 | the same for an animal number on the bi-phase side |
| WrittenTags.TextIsRead | libphidget-2.1.8.20150410/cphidgetrfid.c:336-1725 | the same for a text whose frame does not pass for a telegram |
| WriteQueue.StepLocks | libphidget-2.1.8.20150410/cphidgetmacros.h:195-209 | one sender at a time is inside the write lock, one side at a time inside the output lock |
| WriteQueue.StepInOrder | libphidget-2.1.8.20150410/cphidgetmacros.h:238-254 | every step keeps: packets taken, then the queued one, are the accepted packets in order; packets sent are those taken |
| WriteQueue.StepWakeups | libphidget-2.1.8.20150410/cphidget.c:320-347 | every step keeps: a queued and signalled packet has its event set or a writer about to look; a waiting sender has a full slot, its event set, or a writer about to set it |
| WriteQueue.EveryInterleaving | libphidget-2.1.8.20150410/cphidgetmacros.h:158-254 | all of this after every run of any number of senders, one included, with the write thread, with events that reset themselves or not |
| WriteQueue.NoZerosUnlessSpurious | libphidget-2.1.8.20150410/cthread.c:429-452 | no run on Windows, and no run on POSIX without a spurious wake, ever sends a packet of zeros, however many waits time out |
| WriteQueue.ZerosAfterSpuriousWake | libphidget-2.1.8.20150410/cthread.c:650-683 | on POSIX one spurious return of the timed wait is enough for a packet of zeros after a real one |
| WriteQueue.WaiterMaySpin | libphidget-2.1.8.20150410/cthread.c:636-685 | with events that stay set a sender can wait on a full slot and return at once, again and again |
| WriteQueue.SlotFreed | libphidget-2.1.8.20150410/cphidget.c:320-347 | the write thread empties the slot for a waiting sender and sets its event |
| WriteQueue.WaiterCompletes | libphidget-2.1.8.20150410/cphidgetmacros.h:164-188 | from every reachable state with a living write thread a waiting sender gets its packet in within 16 orderly steps |
| LedQueue.CodeShown | libphidget-2.1.8.20150410/cphidgetled.c:582-585 | the seven bits of the byte hold the whole number nearest to 127/100 of the brightness, halves rounded up, and the on bit is set just when they are not zero |
| LedQueue.HalvesInTurn | libphidget-2.1.8.20150410/cphidgetled.c:599-636 | an on/off packet goes to a half with changes if there is one, and two in a row go to different halves while the other has changes, whatever is asked for in between |
| LedQueue.CountUpdate | libphidget-2.1.8.20150410/cphidgetled.c:814-816 | changeRequests counts the changed flags when one of them changes |
| LedQueue.FillHarmless | libphidget-2.1.8.20150410/cphidgetled.c:591-597 | repeating the last setting to fill the packet changes nothing on the board |
| LedQueue.SettingsShown | libphidget-2.1.8.20150410/cphidgetled.c:573-589 | a brightness packet sets just the first four changed LEDs that are not going dark |
| LedQueue.GetAgrees | libphidget-2.1.8.20150410/cphidgetled.c:506-639 | whatever packet comes next, the board that receives it shows what the library believes |
| LedQueue.ReceiveNormal | libphidget-2.1.8.20150410/cphidgetled.c:570-598 | after a brightness packet board and beliefs agree for every LED |
| LedQueue.ReceiveOutput | libphidget-2.1.8.20150410/cphidgetled.c:601-636 | after an on/off packet board and beliefs agree for every LED, the registers holding the last brightness |
| LedRuns.BrightnessTakes | libphidget-2.1.8.20150410/cphidgetled.c:573-589 | a brightness packet takes four eligible LEDs, or all there are |
| LedRuns.GetDrains | libphidget-2.1.8.20150410/cphidgetled.c:506-639 | every packet leaves fewer to send |
| LedRuns.Loaded | libphidget-2.1.8.20150410/cphidgetled.c:553-568 | never more than 19 packets are to go out, and none just when nothing is pending |
| LedRuns.RequestsCount | libphidget-2.1.8.20150410/cphidgetled.c:760-762 | changeRequests is zero just when no LED has a pending level, so the event is set again while one has |
| LedRuns.EchoOfRegister | libphidget-2.1.8.20150410/cphidgetled.c:128-140 | the level read back from a register has the register as its code |
| LedRuns.AttachedAgreesIff | libphidget-2.1.8.20150410/cphidgetled.c:122-145 | after attachment what the library believes is what the board shows, just when the on bits were read or no LED is lit |
| LedRuns.LitLedStaysOn | libphidget-2.1.8.20150410/cphidgetled.c:813-827 | a lit LED whose on bit was not read: a request for 0 is taken as already done, nothing is queued and it stays lit |
| LedRuns.EveryInterleaving | libphidget-2.1.8.20150410/cphidgetled.c:773-831 | in every interleaving of requests and packets: the levels taken out and the pending one are the accepted requests in order without repeats, and the board shows the last one taken once the packet in flight has landed |
| LedRuns.BoardShowsLastRequest | libphidget-2.1.8.20150410/cphidgetled.c:479-831 | when the senders pause, at most 19 packets later every LED shows the last level asked of it: the whole number nearest to 127/100 of it |
| LedDevice.LedPhidget.SendPacket | libphidget-2.1.8.20150410/cphidgetled.c:784-830 | one pass under the output lock: queue, accept as already asked for, or wait |
| LedDevice.LedPhidget.Survey | libphidget-2.1.8.20150410/cphidgetled.c:550-568 | which kinds of packet the pending levels ask for |
| LedDevice.LedPhidget.Commit | libphidget-2.1.8.20150410/cphidgetled.c:577-587 | a pending level becomes current and changeRequests still counts the flags |
| LedDevice.LedPhidget.BrightnessPacket | libphidget-2.1.8.20150410/cphidgetled.c:570-598 | up to four levels become current; the bytes parse as their settings |
| LedDevice.LedPhidget.OutputPacket | libphidget-2.1.8.20150410/cphidgetled.c:601-636 | one half becomes current; the bytes parse as its on bits |
| LedDevice.LedPhidget.ControlPacket | libphidget-2.1.8.20150410/cphidgetled.c:507-546 | the bytes parse as the current limit and the voltage |
| LedDevice.LedPhidget.GetPacket | libphidget-2.1.8.20150410/cphidgetled.c:506-639 | the arrays and the eight bytes, for every state, are those of the specification |
| Gps.GoesOnOrSpins | libphidget-2.1.8.20150410/cphidgetgps.c:449-462 | a pass that goes on takes at least a byte, except just when a binary response announces length 249: then nothing is taken, for ever |
| Gps.ResponseWholeIff | libphidget-2.1.8.20150410/cphidgetgps.c:449-468 | a framed binary response is handed on whole and the parser goes on behind it, just when its payload is at most 248 bytes long |
| Gps.LongResponseCut | libphidget-2.1.8.20150410/cphidgetgps.c:449-468 | of a payload of 250 bytes or more only the first bytes are taken, and with 249 none ever |
| Gps.ParseIsCutIff | libphidget-2.1.8.20150410/cphidgetgps.c:470-506 | the parser cuts its queue as the stream is to be cut, but for names; and these agree just when no pass takes a $GP line while fewer than six bytes are queued |
| Gps.ShortSentenceDependsOnQueue | libphidget-2.1.8.20150410/cphidgetgps.c:492-505 | $GP with nothing behind it is NMEA or not depending on what else is queued |
| Gps.CutCompose | libphidget-2.1.8.20150410/cphidgetgps.c:427-511 | cutting one piece of any byte stream and then the rest with the next piece is cutting both at once |
| GpsRuns.PacketsDoNotMatter | libphidget-2.1.8.20150410/cphidgetgps.c:113-130 | as long as the ring does not overflow, the messages, whether a call never returns, and the bytes left over depend only on the bytes received; the names of $GP lines too, just when no pass of any call takes one while fewer than six bytes are queued |
| GpsRuns.NmeaStream | libphidget-2.1.8.20150410/cphidgetgps.c:113-130 | NMEA sentences of up to 82 characters in packets of up to 63 bytes: no overflow, exactly the sentences, in order, and the beginning of the next left over |
| GpsDevice.GpsPhidget.PushByte | libphidget-2.1.8.20150410/cphidgetgps.c:122-126 | a byte goes into the ring; one too many makes it look empty |
| GpsDevice.GpsPhidget.SkipToStart | libphidget-2.1.8.20150410/cphidgetgps.c:436-444 | the read pointer moves to the next dollar sign or 0xa0, or to the end |
| GpsDevice.GpsPhidget.FindEnd | libphidget-2.1.8.20150410/cphidgetgps.c:473-483 | the place of the first newline, or 0 |
| GpsDevice.GpsPhidget.ReadBytes | libphidget-2.1.8.20150410/cphidgetgps.c:485-487 | the bytes copied are the first of the queue, and are gone from it |
| GpsDevice.GpsPhidget.ParseOnce | libphidget-2.1.8.20150410/cphidgetgps.c:432-507 | one pass over the ring with its one-byte pointers |
| GpsDevice.GpsPhidget.ParsePackets | libphidget-2.1.8.20150410/cphidgetgps.c:427-511 | the do-while loop, or the report that the source would never leave it |
| GpsDevice.GpsPhidget.DataInput | libphidget-2.1.8.20150410/cphidgetgps.c:113-130 | a packet is stored and parsed |
| Gpp.SendSector | libphidget-2.1.8.20150410/cphidget.c:1788-1810 | one sector arrives whole: its announced length and its bytes, in one packet and continuations; after a refused send its beginning, and nothing more is sent |
| Gpp.SendHeader | libphidget-2.1.8.20150410/cphidget.c:1791-1800 | the packet that announces a sector, with its first bytes |
| Gpp.SendContinuation | libphidget-2.1.8.20150410/cphidget.c:1802-1810 | a continuation adds the next bytes to the sector |
| Gpp.SectorsJoined | libphidget-2.1.8.20150410/cphidget.c:1783-1813 | the sectors joined are the data |
| Gpp.SectorNumbers | libphidget-2.1.8.20150410/cphidget.c:1783-1813 | the sector numbers count down to 1, and each announces the bytes it carries |
| Gpp.UpgradeFirmware | libphidget-2.1.8.20150410/cphidget.c:1765-1824 | when all sends succeed the device receives the data, each byte once and in order, just when there are at most 0xffff bytes; after a refused send it has received a beginning of them; the result is the device response either way |
| Gpp.SetConfigTable | libphidget-2.1.8.20150410/cphidget.c:2007-2046 | the packets carry the table in order, in no more packets than it takes; after a refused send nothing more goes out and the call fails, and only then |
| Stepper.PositionRoundTrip | libphidget-2.1.8.20150410/cphidgetstepper.c:415-428 | every position the library accepts, coded for any of the three devices, decodes to itself |
| Stepper.StepInv | libphidget-2.1.8.20150410/cphidgetstepper.c:374-379 | counters are command numbers modulo 16 and nothing overtakes anything, whatever happens next |
| Stepper.CountersAgree | libphidget-2.1.8.20150410/cphidgetstepper.c:292-294 | the counters agree just when the report lags by a multiple of 16 commands |
| Stepper.DecideExactly | libphidget-2.1.8.20150410/cphidgetstepper.c:288-305 | exactly when the stopped state is true after a report |
| Stepper.StoppedThroughout | libphidget-2.1.8.20150410/cphidgetstepper.c:288-305 | in every run in which no report is 16 or more commands behind: while the stopped state is true, the device has applied the newest command |
| Stepper.StoppedSinceAttachment | libphidget-2.1.8.20150410/cphidgetstepper.c:288-305 | so it is in every such run that begins with an attachment |
| Stepper.AttachedInv | libphidget-2.1.8.20150410/cphidgetstepper.c:178-254 | an attachment that has read a report starts with counters that agree |
| Stepper.SixteenLost | libphidget-2.1.8.20150410/cphidgetstepper.c:374-379 | sixteen commands lost in a row make an idle motor look stopped with none of them applied |
| StepperDevice.StepperMotor.MakePacket | libphidget-2.1.8.20150410/cphidgetstepper.c:358-575 | the counter advances, stopped becomes false, and the bytes are header, flags and the coded position or the coded settings, middling ones where none were made |
| StepperDevice.StepperMotor.PutRates | libphidget-2.1.8.20150410/cphidgetstepper.c:432-567 | acceleration, speed and current limit as each of the three devices reads them |
| StepperRates.UnitsFit | libphidget-2.1.8.20150410/cphidgetstepper.c:433-554 | accepted settings fit their bytes, the reference voltage is at most level 45, and an accepted acceleration is never sent as none |
| StepperRates.StepsFit | libphidget-2.1.8.20150410/cphidgetstepper.c:433-434 | the step sent is the nearest one |
| StepperRates.UnitsNearest | libphidget-2.1.8.20150410/cphidgetstepper.c:433-554 | acceleration, speed and current limit of each model are sent as the nearest step of its scale; those of the third model less than a unit below |
| StepperRates.SpeedBelieved | libphidget-2.1.8.20150410/cphidgetstepper.c:190-283 | a raw speed is believed just when the speed it stands for is within the limits of the motor |
| StepperRates.FasterIsMore | libphidget-2.1.8.20150410/cphidgetstepper.c:433-535 | a faster setting is never sent as a slower one; standstill and full speed are sent as such |
| StepperDevice.StepperMotor.PutPosition | libphidget-2.1.8.20150410/cphidgetstepper.c:418-427 | the shifts put the bytes of the position in place, the highest first |
| StepperDevice.ReportRead | libphidget-2.1.8.20150410/cphidgetstepper.c:178-254 | written by the device as counter, flags for done and disabled, and signed bytes of speed and position, a report of any of the three models reads as just these, and of the position the whole step reached |
| StepperDevice.ReportJudged | libphidget-2.1.8.20150410/cphidgetstepper.c:178-305 | such a report makes the motor stopped just when it says done, and the motor was stopped, or the counter is that of the last command and the motor is disabled, or stands still on the step asked for; a report that does not say done makes it not stopped |
| StepperDevice.PositionTold | libphidget-2.1.8.20150410/cphidgetstepper.c:415-428 | a device on the step it was sent to tells the position in the bytes it was told |
| StepperDevice.HeaderRead | libphidget-2.1.8.20150410/cphidgetstepper.c:366-388 | the first byte of a packet tells motor, kind and counter |
| StepperDevice.StepperMotor.ParseReport | libphidget-2.1.8.20150410/cphidgetstepper.c:178-254 | the shifts and sums of a report give its counter, flags, speed and position, as ReportRead says them |
| StepperDevice.StepperMotor.DataInput | libphidget-2.1.8.20150410/cphidgetstepper.c:260-305 | echoes are range-checked and stored, then the stopped state is decided, for a report as ReportJudged says |
| IrCode.ExpandInTens | libphidget-2.1.8.20150410/cphidgetir.c:293-303 | lengths go into bytes that expand to the same lengths, cut off to whole tens of microseconds |
| IrCode.CountedExact | libphidget-2.1.8.20150410/cphidgetir.c:582-605 | the places list just the different lengths of the pulses and of the spaces; counting fails just when one of them has more than four |
| IrCode.SortedExact | libphidget-2.1.8.20150410/cphidgetir.c:607-618 | the five rounds leave the same lengths in ascending order |
| IrCode.ShapeTolerance | libphidget-2.1.8.20150410/cphidgetir.c:619-691 | how far lengths may be apart and still count as equal, double or triple, in whole numbers |
| IrRoundTrip.DecodeCoded | libphidget-2.1.8.20150410/cphidgetir.c:698-883 | pulses of one length and spaces of two, or the other way round, decode as space or pulse code just when both lengths occur, the size is right, and the bi-phase part does not take them; bit by bit the longer one is a 1 |
| IrRoundTrip.SpaceRoundTrip | libphidget-2.1.8.20150410/cphidgetir.c:321-883 | a space code expands to its lengths and decodes to the same bits and lengths just when both kinds of bit occur, a 1 has the longer space, there are at most 128 bits, and the bi-phase part does not take them |
| IrRoundTrip.PulseRoundTrip | libphidget-2.1.8.20150410/cphidgetir.c:321-883 | a pulse code with equal spaces, its last space taken off, expands to its lengths and decodes to the same bits and lengths just when both kinds of bit occur, a 1 has the longer pulse, there are at most 128 bits, and the bi-phase part does not take them |
| IrRoundTrip.LongPulseFirst | libphidget-2.1.8.20150410/cphidgetir.c:716-726 | a pulse code that begins with its longer pulse is never taken by the bi-phase part |
| IrDoubles.ReadAsBiphaseIff | libphidget-2.1.8.20150410/cphidgetir.c:619-830 | where the long length is twice all others, the bi-phase part takes the code unless there is a second 1, elsewhere than in place 3, or a pulse code begins with a 1 |
| IrDoubles.DoubledRoundTripIff | libphidget-2.1.8.20150410/cphidgetir.c:321-883 | so such a code, with the default lengths of Sony codes for one, comes back just when both kinds of bit occur and one of these two holds |
| IrRoundTrip.PulseCodeIff | libphidget-2.1.8.20150410/cphidgetir.c:369-392 | the space taken off a pulse code is the right one just when the lowest bit of the first byte stands for a space as long as that of the last bit |
| IrRoundTrip.PulseCodeSpoiled | libphidget-2.1.8.20150410/cphidgetir.c:369-392 | a code of two bytes, the first even and the second odd, loses the wrong space when the spaces of 0 and 1 differ |
| IrRoundTrip.HeldOnce | libphidget-2.1.8.20150410/cphidgetir.c:898-906 | only one row of bytes holds given bits |
| IrBiphase.NeverUnpacked | libphidget-2.1.8.20150410/cphidgetir.c:716-830 | a bi-phase code that does not begin with two ones is never read as it was sent, whatever is taken for the half-bit |
| IrBiphase.LengthsAreLevels | libphidget-2.1.8.20150410/cphidgetir.c:393-473 | read as levels over time, the lengths are those of the bits, two halves each, bit 4 of RC-6 twice as long, from the first pulse to the last; just when an RC-6 code ends with that bit as a 0 its last pulse is too short |
| IrBiphase.TimesTolerance | libphidget-2.1.8.20150410/cphidgetir.c:738-775 | how far a length may be from two or three half-bits, in whole numbers |
| IrBiphase.KindIff | libphidget-2.1.8.20150410/cphidgetir.c:816-825 | half-bits from 728 to 1086 microseconds are taken for RC-5 |
| IrRc6.UnpacksSixIff | libphidget-2.1.8.20150410/cphidgetir.c:716-830 | an RC-6 code of 6 to 127 bits, with its own half-bit, is read as it was sent just when it begins with a 1 and one of the next three bits is a 0, or 1111 0 1 is followed by a 0 anywhere |
| IrRc6.DecodeSixIff | libphidget-2.1.8.20150410/cphidgetir.c:573-830 | its lengths decode to the same bits and half-bit just when besides the lengths that occur are recognised as bi-phase or RC-6 |
| IrRc6.AlternatingLost | libphidget-2.1.8.20150410/cphidgetir.c:682-690 | the code 101010 is not recognised: the last of the RC-6 cases compares a triple length with twice a double one |
| IrRc6.SixPacked | libphidget-2.1.8.20150410/cphidgetir.c:393-473 | the packet bytes of an RC-6 code expand to its lengths |
| IrRoundTrip.HalvesPacked | libphidget-2.1.8.20150410/cphidgetir.c:393-473 | the packet bytes of a bi-phase code expand to its lengths |
| IrRoundTrip.BiphaseRoundTripIff | libphidget-2.1.8.20150410/cphidgetir.c:393-830 | a bi-phase or RC-5 code of 4 to 127 bits decodes to the same bits and half-bit just when it begins with two ones |
| IrDevice.CodeInfoToRawData | libphidget-2.1.8.20150410/cphidgetir.c:321-485 | for every encoding: header, the bits from the highest on, trail, or the repeat code, and the error returns |
| IrDevice.HalvesToRawData | libphidget-2.1.8.20150410/cphidgetir.c:393-473 | the halves of neighbouring bits merged, the double bit of RC-6, and the end |
| IrDevice.PulsesToRawData | libphidget-2.1.8.20150410/cphidgetir.c:332-392 | pulse codes: header and bits, then a space taken off by the lowest bit of the first byte |
| IrDevice.TimeToPacket | libphidget-2.1.8.20150410/cphidgetir.c:293-303 | one length is stored, or the error that applies first is returned |
| IrDevice.BitsToRawData | libphidget-2.1.8.20150410/cphidgetir.c:355-367 | the loop over the bits of the code |
| IrDevice.CountTimes | libphidget-2.1.8.20150410/cphidgetir.c:582-605 | the different pulse and space lengths, at most four of each |
| IrDevice.SortTimes | libphidget-2.1.8.20150410/cphidgetir.c:607-618 | five rounds of exchanges |
| IrDevice.ReadBits | libphidget-2.1.8.20150410/cphidgetir.c:843-850 | bit b of the temporary array says whether the b-th length is that of a 1 |
| IrDevice.Flip | libphidget-2.1.8.20150410/cphidgetir.c:898-906 | the bits end up at the end of the output, the first received highest, the rest clear |
| IrDevice.DecodeBiphase | libphidget-2.1.8.20150410/cphidgetir.c:716-830 | the half-bit decoder with its leading space, its RC-6 cases and its refusals, for any lengths |
| IrDevice.DecodeData | libphidget-2.1.8.20150410/cphidgetir.c:573-913 | for any lengths: counting, sorting, classifying, the bi-phase part, reading and flipping agree with the specification; more bits than decode_temp holds are told apart |
| IrDevice.CodeComesBack | libphidget-2.1.8.20150410/cphidgetir.c:321-913 | encoder and decoder together give back the same bytes, bit count and lengths of a space or a pulse code under just that condition |
| IrDevice.BiphaseComesBack | libphidget-2.1.8.20150410/cphidgetir.c:393-913 | and of a bi-phase code just when it begins with two ones |
| IrDevice.Rc6ComesBack | libphidget-2.1.8.20150410/cphidgetir.c:393-913 | and of an RC-6 code just when its lengths are recognised and a 0 shows early enough that it began with a pulse |
| InterfaceKit.RestLength | libphidget-2.1.8.20150410/cphidgetinterfacekit.c:580-594 | round-robin order holds as many samples as the channel counts add up to |
| InterfaceKit.PackReadable | libphidget-2.1.8.20150410/cphidgetinterfacekit.c:606-615 | two samples in three bytes are read back nibble by nibble |
| InterfaceKit.CompensationOrder | libphidget-2.1.8.20150410/cphidgetinterfacekit.c:616-619 | compensated samples keep their order, gain at most four, and are unchanged below 500 |
| InterfaceKit.ReadCounts | libphidget-2.1.8.20150410/cphidgetinterfacekit.c:580-594 | the counts come from a nibble for each sensor and are added up |
| InterfaceKit.ReadPair | libphidget-2.1.8.20150410/cphidgetinterfacekit.c:555-578 | the overruns of a pair of channels are read if its bit is set |
| InterfaceKit.ReadRound | libphidget-2.1.8.20150410/cphidgetinterfacekit.c:602-626 | one round takes one sample of every channel that has more |
| InterfaceKit.ReadSamples | libphidget-2.1.8.20150410/cphidgetinterfacekit.c:596-627 | every sample goes to its channel, in order, exactly once, and the loop ends |
| InterfaceKit.CompensationNearest | libphidget-2.1.8.20150410/cphidgetinterfacekit.c:616-620 | the value stored is the whole number nearest to 1.001 times the sample, and 0xfff just when that is 4094.5 or more; on the scale to 1000 it is the nearest too |
| InterfaceKit.ReadPacket | libphidget-2.1.8.20150410/cphidgetinterfacekit.c:548-627 | overruns and counts of any packet that carries them, and of every sample, in its channel and in order, the nearest whole number to 1.001 times it, or 0xfff, and its value on the scale to 1000 |

## Left out

- USB, sockets, the webservice paths, logging, label conversion, and the getters and setters around the code modelled.
- The Hitag anti-collision code and the raw-data interface of the RFID file: debug builds only.
- Tag events and their timing (tagEvent, tag lost, waitForTag): wall-clock behaviour. Reports are kept as a list.
- Echoed output, antenna and LED state of the RFID reader, and the timing bytes of its control packet.
- Strtoll saturates in C; the model lets the number grow. No accepted EM4100 or FDX-B string is long enough to tell.
- The printf formats are modelled by their digits; the tag text buffer is long enough for all of them.
- EndToEnd.OnlyTheTagIsReported: is about clean streams between gaps; noise pulses that happen to fit the lengths are
  not modelled.
- PhidgetTagRuns.FalseTelegramIsReported: says what is reported first; after that, whether the tag itself is reported
  too depends on the packets.
- LevelRuns.TagAmongLevelsIff: says whether an EM4100 tag is reported; which ones are, and how often, is left open.
- FalseReports.OneBitHidesTheTag: is about a wrong bit among the checksum bits; a wrong bit elsewhere is a window with
  another checksum, for which FoundAfterFailureIff gives the condition.
- pause_usb_traffic: a pause of all devices by another part of the library. Stop flag and detachment are a thread
  that quits.
- The Windows and POSIX events differ in whether a wait resets them; WriteQueue covers both. Fairness is not
  assumed; progress is stated as a schedule that exists from every reachable state.
- The original LED board and the M3 board: the same queue with simpler packets. The read-only fault reports.
- LedQueue uses real numbers for percentages and one Unknown for the out-of-range constant; rounding of doubles
  is not modelled.
- The GPS fields of a sentence (checkcrc, parse_NMEA_data) and the contents of binary responses.
- Stepper velocities, accelerations and current limits are real numbers; rounding of doubles is not modelled. The arrays
  of several motors are modelled as one motor, as they do not touch each other.
- Stepper.StoppedSinceAttachment: starts from an attachment that has read a report; with none, the first counter may
  by chance equal the counter of an earlier session.
- IrRoundTrip.BiphaseRoundTripIff: is about bi-phase and RC-5 codes of up to 127 bits; IrRc6.DecodeSixIff covers RC-6
  codes of 6 to 127 bits, all with half-bits of one length. With 128 bits the half-bit decoder runs out of room.
- IrDoubles.DoubledRoundTripIff: stops at 126 bits, where the half-bit decoder may run out of room instead of giving up;
  CodedRoundTrip gives the condition for every length in terms of that decoder.
- The fields of a T5577 configuration are read as the comments beside its three values name them.
- IrDevice.DecodeData: more than 128 bits are reported as such and end it; the array of the source has no room for more.
- InterfaceKit.ReadPacket: is about packets whose counts agree with their data; the source trusts the device there.
- The class methods of the frame decoders take their rings as arrays and return the new read pointer, instead of
  writing through a pointer.
- Members that are not in the table above are steps of the proofs.
