# A verified model of the video transport core

`rusty_esp_video-core` carries camera video off a microcontroller: it splits JPEG and H.264 pictures into
packets, muxes them, frames them, paces them, and takes them apart again at the other end. This Dafny project models
its wire formats with both ends of each, its scanners and its admission control, and proves what the two ends promise
together. `dafny verify dfyconfig.toml` checks all of it.

Each stateful object of the source is a class over its fields and its buffer; its methods are proved equal to a
function on plain values (a *refinement*), and the properties of whole runs are lemmas about those functions.

- **RTP/JPEG (RFC 2435).** `jpeg_scan`, `jpeg_headers`, `huffman` and `quant_tables` hold the JPEG parser and
  the header printer it undoes; `jpeg_syntax` reads what is printed with readers of its own, and `jpeg_insert` says what
  the parser steps over and refuses. `jpeg_sender` is the payloader; `jpeg_receiver` (functions) and `jpeg_depayloader`
  (class) the depayloader; `jpeg_layout` both byte by byte. `jpeg_lossy` is the theorem over loss patterns with short
  runs, `jpeg_answers` what the depayloader answers on the way, `jpeg_gaps` and `jpeg_splice` what long runs do,
  `jpeg_offsets` how long a scan may be, `jpeg_accepted` the path from file to file, `jpeg_any` what holds for packets
  from anyone. `rtp` is the header.
- **H.264 in RTP (RFC 6184).** `annexb`, `nal_spans`, `access_units`, `annexb_iter`, `unit_nals` and `unit_shape` scan and split a
  byte stream; `h264_packets` and `h264_payloader` packetize it, against a receiver written from sections 5.6 and 5.8.
- **MPEG-TS (ITU-T H.222.0).** `ts_mux` and `ts_mux_loop`, `ts_demux`, `ts_roundtrip`, `ts_schedule`, `crc32`;
  `ts_syntax` reads the packets with readers written from the standard, `ts_faults` says what the demuxer counts and
  refuses.
- **Multipart JPEG.** `multipart` writes; `multipart_reader` and `multipart_reader_loop` read; `multipart_shape`,
  `multipart_roundtrip`, `multipart_boundaries` and `multipart_closing` relate the two; `multipart_more` and
  `multipart_refusals` are about any bytes, `multipart_text` spells the writer's out. `text` has the search and the decimal
  numbers.
- **Datagrams.** `udp`, `udp_loop`, `udp_order`, `udp_run`, `udp_repeats`.
- **Admission control.** `pacer`, `budget`, `wire`, `udp_senders`, and `budgeted_stream` from the sender to the receiver.
- **HTTP scans.** `http_scans`.

Where the code and its comments disagree the model follows the code. `udp.rs` speaks of a 24-byte header and writes
28 bytes. `mpegts.rs` promises the tables at least every 64 packets and looks only when an access unit starts
(`TsSchedule.IntervalKeptExactly`, `TsSchedule.IntervalBroken`). `pacer.rs` speaks of `fps` per second; its interval is
rounded down to whole microseconds, and zero above a million, so that rate is kept exactly when it divides a million
(`Pacing.FpsExactly`). Its bit-rate cap takes call times as they come, and time that passes twice is credited twice
(`Budgets.ClockExactly`).

Some promises hold under a condition, and then the exact condition is proved:

- of the JPEGs the parser accepts, exactly those abort the sender that have a scan and define quantization table 1
  without table 0 (`JpegAccepted.AbortsExactly`); there are such files (`JpegAccepted.Table1FileAccepted`);
- a scan survives exactly when its last fragment starts below 2^24 (`JpegOffsets.OffsetsExactly`);
- over any run the losses are counted exactly when every run of them is shorter than 2^15 packets
  (`JpegGaps.LossCountedExactly`), and then whole frames and no others are delivered (`JpegLossyLink.LossyLink`). Under
  all losses that holds exactly for the streams in which no JPEG's front can be joined to the rest of a later one, a
  condition on sizes and timestamps (`JpegSplice.WholeExactly`); distinct timestamps meet it (`JpegSplice.StampedLink`);
- the NAL units of a stream's access units are the one way to cut its NAL units into pictures (`UnitShape.UnitsExactly`);
- an access unit survives RFC 6184 exactly when each NAL unit that fits a packet of its own has a type from 1 to 23
  (`H264Packets.DepacketizePackets`);
- a presentation time is true exactly when nine times the microseconds fits 64 bits (`TsSchedule.PtsTrueExactly`);
- a multipart boundary survives exactly under `MultipartBoundaries.ExactBoundaries`, and a connection errs exactly
  when a chunk does not fit the buffer or the headers of a part larger than the buffer have come
  (`MultipartRoundTrip.OnlyRoomFails`); a reported part lies within the bytes received exactly when its end fits 64 bits
  (`MultipartReader.ReportedExactly`), and taking the body of another one aborts;
- repeated datagrams count again: a packet is reported at the first arrival that fills its count, and is right exactly
  when each of its fragments has arrived by then or finds its bytes in the buffer already (`UdpRepeats.RepeatsExactly`),
  and so on each time the count fills again (`UdpRepeats.EveryRepeat`);
- the raw sender's budget charge is exact for every packet but the empty one (`Wire.RawExact`); the RTP sender's covers a
  JPEG exactly under the sum `Wire.Covered` (`Wire.RtpCovered`), which holds for all without restart markers
  (`Wire.NoRestartCovered`) and fails for those with once four bytes a packet are more than what else the file holds
  and its allowance (`Wire.RestartUndercharged`);
- the burst is `burst_ms` of the rate in whole bytes exactly when that product fits 64 bits (`Budgets.BurstExactly`);
- bytes admitted never exceed the burst and what the rate earns in the time that passes from call to call
  (`Budgets.RateBound`); measured by the clock from first call to last, that holds whatever the frames ask for exactly
  when the credits that can be earned at these times are within it (`Budgets.ClockExactly`), as for times in order;
- frames stay within the documented rate, for all arrivals and stretches, exactly when it divides a million
  (`Pacing.FpsExactly`); the tables come as often as documented exactly when each unit's packets still fit the interval
  (`TsSchedule.IntervalKeptExactly`).

Modelling conventions: a byte is an integer below 256 and bit operations are divisions and remainders (the CRC is on
bit-vectors); `usize` is 64 bits; an `emit` closure, a sink or a socket is the list of what it was handed; a Rust abort
is the result `Err(Panic)`; `Micros::since` is the time passed, and zero when the clock went back. Arithmetic is that of
a release build: a 64-bit sum or product that overflows wraps around (`pts_90k`, the burst of a budget, the end of a
multipart part).

## Model

| member | source | states |
|---|---|---|
| RtpHeader.ParseEncode | crates/rusty_esp_video-core/src/rtp.rs:94-123 | the header parser returns every header the writer writes, and the payload behind it |
| RtpHeader.Rtp.WriteHeader | crates/rusty_esp_video-core/src/rtp.rs:63-74 | the first twelve bytes become that header, the rest of the buffer stays, the sequence number moves on mod 2^16; a short buffer changes nothing |
| RtpHeader.HeaderLayout | crates/rusty_esp_video-core/src/rtp.rs:63-74 | the twelve bytes: version 2 and no more, marker and type, and sequence number, timestamp and source, most significant byte first |
| RtpHeader.ParseFull | crates/rusty_esp_video-core/src/rtp.rs:94-123 | a header with padding flag, any CSRC entries and any extension parses to its fields and the payload behind them |
| RtpHeader.ParseShort | crates/rusty_esp_video-core/src/rtp.rs:94-123 | cut anywhere inside, it is refused |
| RtpHeader.SecondsApart | crates/rusty_esp_video-core/src/rtp.rs:58-60 | 90 kHz timestamps of captures some seconds apart differ by 90000 a second, mod 2^32 |
| JpegFile.ParseLoop | crates/rusty_esp_video-core/src/rtp.rs:222-342 | the cursor walk over markers and segments computes the recursive reading, error by error; `JpegInsert` says what it steps over and refuses |
| JpegInsert.InsertingChangesNothing | crates/rusty_esp_video-core/src/rtp.rs:232-246 | a whole segment of a marker the parser does not read, APPn and COM among them, any run of fill bytes, or a marker 01 or D0 to D7, inserted at any marker in front of the scan, leaves the result unchanged |
| JpegInsert.RefusedAt | crates/rusty_esp_video-core/src/rtp.rs:248-339 | behind segments the parser accepts, a frame header of another process or one that is not legal, a table segment that is not, an end marker or a short restart interval is what the file is refused with, each with its error |
| JpegInsert.OtherFrames | crates/rusty_esp_video-core/src/rtp.rs:263-283 | with SOF1 for SOF0 a printed file parses the same, with any other frame marker it is Unsupported |
| JpegInsert.SofExactly | crates/rusty_esp_video-core/src/rtp.rs:263-283 | a frame header is accepted if and only if it is 8-bit, of three components, the first sampled 2 by 1 or 2 by 2, both sides positive multiples of 8 up to 2040; the sides and the type read are those |
| JpegInsert.DqtExactly | crates/rusty_esp_video-core/src/rtp.rs:249-262 | a table segment is accepted if and only if it is whole 8-bit tables 0 and 1 |
| JpegInsert.DqtSays | crates/rusty_esp_video-core/src/rtp.rs:249-262 | of an accepted one the last table of each number stands, and the count is one more than the highest number |
| JpegFile.ReadDqtLoop | crates/rusty_esp_video-core/src/rtp.rs:249-262 | the table loop of a DQT segment reads what the definition reads |
| JpegFile.CheckDhtLoop | crates/rusty_esp_video-core/src/rtp.rs:284-303 | the table loop gives the verdict of the definition, error by error, and accepts exactly the lists of whole Annex K tables |
| JpegFile.DhtAcceptedExactly | crates/rusty_esp_video-core/src/rtp.rs:284-303 | a DHT segment is accepted if and only if it is a list of Annex K tables, each written out whole |
| JpegFile.ReadScanLoop | crates/rusty_esp_video-core/src/rtp.rs:310-336 | there is a scan if and only if tables and dimensions are known and the last FF D9 is not in front of it, and it ends there |
| JpegFile.ScanEndsAtLastEoi | crates/rusty_esp_video-core/src/rtp.rs:326-333 | a byte string is the scan read if and only if it runs from the header to an FF D9 with none behind it |
| Huffman.TablesWellFormed | crates/rusty_esp_video-core/src/rtp.rs:428-498 | each of the four tables has as many symbols as its code lengths announce |
| Huffman.PrefixCodes | crates/rusty_esp_video-core/src/rtp.rs:428-498 | each table is a prefix code that leaves out the code of all ones alone; the DC symbols are the twelve categories in order |
| QuantTables.ScanWalks | crates/rusty_esp_video-core/src/rtp.rs:525-537 | the zigzag order is a walk of diagonal steps through the square |
| QuantTables.FiftyIsBase | crates/rusty_esp_video-core/src/rtp.rs:525-537 | quality 50 is the printed matrix in that order |
| QuantTables.FinerWithQuality | crates/rusty_esp_video-core/src/rtp.rs:525-537 | no entry grows with quality or falls to zero |
| QuantTables.KnownEntries | crates/rusty_esp_video-core/src/rtp.rs:1016-1033 | the first entries of both tables at quality 50 |
| QuantTables.KnownEnds | crates/rusty_esp_video-core/src/rtp.rs:525-537 | the ends of the scale, and quality 99 from there to 127 |
| JpegHeaders.ParseFile | crates/rusty_esp_video-core/src/rtp.rs:551-602 | parsing headers, scan and FF D9 returns every field and every scan byte: the parser undoes the header writer |
| JpegSyntax.HeadersByTheBook | crates/rusty_esp_video-core/src/rtp.rs:551-602 | read segment by segment as ITU-T T.81 lays them out: one frame header with three components, their sampling and tables, each quantization table, each Huffman table under its class and number, the restart interval, and a scan of components 1, 2, 3 with tables 0, 1, 1, all 64 coefficients |
| JpegHeaders.HeadersLen | crates/rusty_esp_video-core/src/rtp.rs:542-545 | the header length formula is the number of bytes written |
| JpegHeaders.WriteJpegHeaders | crates/rusty_esp_video-core/src/rtp.rs:551-602 | the headers land in the given slice and nowhere else; each error case, and then nothing is written |
| JpegSender.New | crates/rusty_esp_video-core/src/rtp.rs:356-365 | refused exactly below the smallest MTU |
| JpegSender.JpegPayloader.Packetize | crates/rusty_esp_video-core/src/rtp.rs:368-421 | each error case, nothing for an empty scan, and otherwise exactly the packets of the specification: none over the MTU, payload type 26, consecutive numbers, the marker on the last, and a timestamp that is the capture time in 90 kHz ticks mod 2^32 |
| JpegSender.PacketsHeaded | crates/rusty_esp_video-core/src/rtp.rs:368-421 | what the header parser reads from each packet of one call |
| JpegLayout.FragmentLayout | crates/rusty_esp_video-core/src/rtp.rs:382-417 | every fragment of an accepted JPEG byte by byte: main header, restart header, the tables in the first, the scan bytes; all but the last fill the MTU |
| JpegSender.JpegPayloader.BuildFragment | crates/rusty_esp_video-core/src/rtp.rs:382-417 | one fragment is laid out in the scratch buffer byte for byte |
| JpegDepayloader.New | crates/rusty_esp_video-core/src/rtp.rs:660-684 | refused exactly when the buffer cannot hold the reserve and the end marker |
| JpegDepayloader.Depayloader.Push | crates/rusty_esp_video-core/src/rtp.rs:695-819 | for any packet the fields, the buffer and the result are those of the state machine, and its invariant holds on; `JpegAnswers` and `JpegAnyPackets` say what those answers are |
| JpegDepayloader.Depayloader.WriteFile | crates/rusty_esp_video-core/src/rtp.rs:797-809 | headers in front of the scan and FF D9 behind it leave the whole file in one range of the buffer, the scan unmoved |
| JpegReceiver.Push | crates/rusty_esp_video-core/src/rtp.rs:695-819 | whatever the packet, the scan stays inside the buffer and the tables stay whole |
| JpegLayout.MainRead | crates/rusty_esp_video-core/src/rtp.rs:713-729 | the main and restart headers byte by byte, and each refusal |
| JpegLayout.NoRoom | crates/rusty_esp_video-core/src/rtp.rs:783-790 | too small a buffer is told with the bytes that would do |
| JpegAnswers.AnswersOverLink | crates/rusty_esp_video-core/src/rtp.rs:695-819 | over the same losses as LossyLink, every answer: Dropped for the first arrival behind a loss in a JPEG whose packets all arrived up to it, the frame for the last packet of a whole one, Fragment for the rest; frames are those delivered, and with the drops and the one in progress they are the first fragments that arrived |
| JpegLossyLink.LossyLink | crates/rusty_esp_video-core/src/rtp.rs:695-819 | over every subsequence of the packets of any JPEGs with short runs of loss, exactly the frames all of whose packets arrived are delivered, in order, each with its own bytes, and the loss counter is the packets missing between the first and the last that arrived |
| JpegLossyLink.StreamOverLink | crates/rusty_esp_video-core/src/rtp.rs:695-819 | the same from any receiver in step with the link, mid-stream |
| JpegLossyLink.LostIsWindowLessArrivals | crates/rusty_esp_video-core/src/rtp.rs:700-710 | the count of losses is the window from first to last arrival less the arrivals |
| JpegGaps.LossCountedExactly | crates/rusty_esp_video-core/src/rtp.rs:700-710 | over every run, whatever the JPEGs, the counter is all the losses between first and last arrival if and only if each run of them is below 2^15, and never more |
| JpegSplice.WholeExactly | crates/rusty_esp_video-core/src/rtp.rs:700-782 | for any list of JPEGs: exactly the whole frames are delivered under every loss pattern, runs of any length, if and only if no JPEG's front ends where a fragment of a later one of the same timestamp starts, with a number of packets between that looks like no loss |
| JpegSplice.Joined | crates/rusty_esp_video-core/src/rtp.rs:774-782 | otherwise some losses have one frame delivered, the front of one JPEG and the rest of another, although none is whole |
| JpegSplice.StampedLink | crates/rusty_esp_video-core/src/rtp.rs:774-782 | when no two JPEGs share a timestamp, exactly the whole frames are delivered over every loss pattern |
| JpegSplice.TwoAreJoinable | crates/rusty_esp_video-core/src/rtp.rs:702-709 | two JPEGs of one timestamp in a row, with first fragments of one size and more to come, can be joined once the number of the first one's packets looks like no loss, as from 2^15 on |
| JpegSplice.LongIsJoinable | crates/rusty_esp_video-core/src/rtp.rs:702-709 | there are such JPEGs at the smallest MTU: of 8 by 8 pixels with one table, the first of 2^15 packets |
| JpegOffsets.OffsetsExactly | crates/rusty_esp_video-core/src/rtp.rs:386-389 | over a perfect link a JPEG is delivered intact if and only if its last fragment starts below 2^24 |
| JpegOffsets.NeverWhole | crates/rusty_esp_video-core/src/rtp.rs:695-819 | once an offset wraps, whatever is delivered is shorter than the JPEG |
| JpegAccepted.ParseShape | crates/rusty_esp_video-core/src/rtp.rs:222-342 | an accepted JPEG has legal dimensions, whole tables, and a file at least that much longer than its scan |
| JpegAccepted.WhenTablesPresent | crates/rusty_esp_video-core/src/rtp.rs:258-259 | an accepted JPEG has every table it announces if and only if it does not define table 1 without table 0 |
| JpegAccepted.AbortsExactly | crates/rusty_esp_video-core/src/rtp.rs:404-409 | on an accepted JPEG the sender aborts if and only if there is a scan and table 1 stands without table 0 |
| JpegAccepted.Table1FileAccepted | crates/rusty_esp_video-core/src/rtp.rs:406-408 | files that define only table 1 exist for every size, table and scan; they are accepted, and the sender aborts on them if and only if the scan is not empty |
| JpegAccepted.RebuiltParsesAlike | crates/rusty_esp_video-core/src/rtp.rs:797-818 | the rebuilt file parses to exactly what the original parsed to |
| JpegAccepted.FilesOverLossyLink | crates/rusty_esp_video-core/src/rtp.rs:368-421 | files in, packets over a lossy link, files out: the delivered ones parse as the originals that arrived whole, in order |
| JpegAnyPackets.EveryFrameGenuine | crates/rusty_esp_video-core/src/rtp.rs:695-819 | after any packets at all, a reported frame is a JPEG the parser accepts with the reported size, whose scan is a contiguous chain of received fragments of one timestamp starting at offset 0; size, type, restart interval and tables are those of the chain's first packet, tables by Q or those in force |
| JpegAnyPackets.LedgerExactly | crates/rusty_esp_video-core/src/rtp.rs:731-782 | after any packets frames, drops and the frame in progress are together the frames opened, and frames are the files delivered |
| JpegAnyPackets.AnswersTell | crates/rusty_esp_video-core/src/rtp.rs:731-790 | whatever packet arrives, the answer tells what became of the frame in progress, and a drop is answered if and only if one is counted for a later fragment |
| JpegAnyPackets.FramesAndDropsBounded | crates/rusty_esp_video-core/src/rtp.rs:731-782 | frames plus drops never exceed the offset-0 packets received |
| AnnexB.ScanFramed | crates/rusty_esp_video-core/src/annexb.rs:36-41 | any NAL units without an inner start code or a trailing zero, framed with any number of leading zeros, are scanned back unchanged |
| AnnexB.Splice | crates/rusty_esp_video-core/src/annexb.rs:77-84 | cutting a stream in front of a start code cuts its list of NAL units |
| AnnexB.CodeIsFound | crates/rusty_esp_video-core/src/annexb.rs:77-84 | whatever is a first start code with all its zeros is what the search returns |
| NalSpans.SpansSpread | crates/rusty_esp_video-core/src/annexb.rs:123-153 | on any input the spans are ordered and disjoint, hold no start code, and end in a nonzero byte when another follows |
| NalSpans.SpansAreNalUnits | crates/rusty_esp_video-core/src/annexb.rs:87-89 | the spans delimit exactly the NAL units |
| AnnexBIterators.FindStartCode | crates/rusty_esp_video-core/src/annexb.rs:77-84 | the two loops return the first start code, leading zeros included |
| AnnexBIterators.SpanIterator.Next | crates/rusty_esp_video-core/src/annexb.rs:123-153 | each call yields the head of the remaining spans, or none when there is none |
| AnnexBIterators.UnitIterator.Next | crates/rusty_esp_video-core/src/annexb.rs:224-250 | each call yields the head of the remaining access units |
| AccessUnits.UnitsMakeUpStream | crates/rusty_esp_video-core/src/annexb.rs:224-250 | the access units concatenate to the stream from its first NAL unit's start code on |
| UnitNals.NoNalLost | crates/rusty_esp_video-core/src/annexb.rs:224-250 | re-scanning every unit yields together exactly the stream's NAL units |
| UnitNals.UnitsArePictures | crates/rusty_esp_video-core/src/annexb.rs:192-198 | the units' NAL units are the stream's, grouped into pictures by the definition on lists |
| UnitNals.UnitsHoldOnePicture | crates/rusty_esp_video-core/src/annexb.rs:168-174 | no unit holds two first slices, and every later unit has one as its first VCL NAL unit |
| UnitShape.UnitsExactly | crates/rusty_esp_video-core/src/annexb.rs:164-174 | by NAL unit type: the units are all the NAL units, cut so that none is empty, none has an opening slice behind another slice, each later one opens with its first slice, and each but the last ends with a slice; and there is no other such cut |
| UnitNals.SplitAgain | crates/rusty_esp_video-core/src/annexb.rs:224-250 | splitting a unit again returns just that unit |
| H264Payload.New | crates/rusty_esp_video-core/src/rtp.rs:139-144 | refused exactly below the smallest MTU |
| H264Payload.H264Payloader.Packetize | crates/rusty_esp_video-core/src/rtp.rs:149-196 | each error case, and otherwise exactly the packets of the specification for the stream's NAL units, none over the MTU, with consecutive numbers, the marker on the last, and a timestamp that is the capture time in clock ticks mod 2^32 |
| H264Payload.H264Payloader.SendNal | crates/rusty_esp_video-core/src/rtp.rs:169-193 | one NAL unit is sent whole or through the fragmentation loop |
| H264Packets.DepacketizePackets | crates/rusty_esp_video-core/src/rtp.rs:149-196 | an RFC 6184 receiver returns exactly the NAL units, at every MTU, if and only if each that fits a packet of its own has a type from 1 to 23 |
| H264Packets.PacketsSequenced | crates/rusty_esp_video-core/src/rtp.rs:63-74 | no packet exceeds the MTU, sequence numbers are consecutive mod 2^16, the last packet alone has the marker |
| H264Packets.AtLeastTwoFragments | crates/rusty_esp_video-core/src/rtp.rs:174-193 | a fragmented NAL unit takes two packets or more |
| H264Packets.StartAndEndApart | crates/rusty_esp_video-core/src/rtp.rs:174-193 | of its packets the first alone has the start bit and the last alone the end bit, never both, each carries the unit's type and reference bits, and all but the last fill the MTU |
| Crc32.CrcLoop | crates/rusty_esp_video-core/src/mpegts.rs:85-98 | the two loops compute the register of the definition |
| Crc32.ResidueZero | crates/rusty_esp_video-core/src/mpegts.rs:85-98 | any bytes followed by their own CRC leave the register zero |
| Crc32.OneByteErrorSeen | crates/rusty_esp_video-core/src/mpegts.rs:85-98 | changing one byte anywhere changes the register |
| Crc32.CheckValue | crates/rusty_esp_video-core/src/mpegts.rs:486-489 | the CRC of the digits 1 to 9 is the published check value |
| TsSchedule.SectionsPass | crates/rusty_esp_video-core/src/mpegts.rs:244-287 | every PAT and PMT written passes a receiver's CRC check |
| TsSyntax.StreamByTheBook | crates/rusty_esp_video-core/src/mpegts.rs:202-287 | any run, packet by packet, read as H.222.0 lays them out: headers and adaptation fields are legal; each PAT lists program 1 on the PID of the packet right behind it; that is a PMT of program 1 whose PCR PID and one H.264 stream are the PID of every packet with a PCR and of all video |
| TsSyntax.UnitByTheBook | crates/rusty_esp_video-core/src/mpegts.rs:146-199 | a unit's first packet has the random access flag if and only if it is flagged key or holds a NAL unit of type 5, a PCR 27000 ticks early or zero, and a PES header with its PTS in front of the unit, a delimiter first |
| TsSyntax.TablesInFront | crates/rusty_esp_video-core/src/mpegts.rs:137-145 | the tables go in front of a unit if and only if it is the first, such a key unit, or 64 packets have followed the last ones |
| TsMuxLoop.Mux.Push | crates/rusty_esp_video-core/src/mpegts.rs:137-200 | anything but H.264 with data is refused unchanged; otherwise one call puts out exactly the packets of the specification and moves every counter as it says |
| TsMuxLoop.Mux.VideoLoop | crates/rusty_esp_video-core/src/mpegts.rs:155-199 | the packetisation loop, stuffing cases and all, writes the specified video packets |
| TsMuxLoop.Mux.WritePsi | crates/rusty_esp_video-core/src/mpegts.rs:219-241 | the two table packets `TsSyntax` reads, and the interval counter back to zero |
| TsMuxLoop.Chunks.Read | crates/rusty_esp_video-core/src/mpegts.rs:345-360 | reading across the three slices takes the next bytes of their concatenation |
| TsMuxLoop.Chunks.Remaining | crates/rusty_esp_video-core/src/mpegts.rs:336-343 | the count of what is left to read |
| TsDemux.ParseLoop | crates/rusty_esp_video-core/src/mpegts.rs:388-478 | the demuxer's loop computes the fold over packets |
| TsFaults.ErrorsExactly | crates/rusty_esp_video-core/src/mpegts.rs:394-415 | for any stream that is accepted, the continuity errors on each PID are the packets whose counter does not follow the one before by one mod 16 |
| TsFaults.FaultBehindRun | crates/rusty_esp_video-core/src/mpegts.rs:397-453 | a packet without the sync byte, of another PID, or with a bad PES start, behind any run of the mux and in front of anything, is what the stream is refused with |
| TsFaults.PartialRefused | crates/rusty_esp_video-core/src/mpegts.rs:388-391 | the length is refused if and only if it is no multiple of 188 |
| TsRoundTrip.MuxDemux | crates/rusty_esp_video-core/src/mpegts.rs:388-478 | for any run, demuxing the output returns exactly the access units (a delimiter in front where absent), their PTS, one PCR each, the stream type, and no continuity error |
| TsRoundTrip.PcrNotAhead | crates/rusty_esp_video-core/src/mpegts.rs:146-147 | each PCR is its unit's PTS less 27000 ticks, and zero at the start |
| TsRoundTrip.RunRead | crates/rusty_esp_video-core/src/mpegts.rs:388-478 | the same for a run from any demuxer in step with the mux |
| TsSchedule.PtsTrueExactly | crates/rusty_esp_video-core/src/mpegts.rs:102-104 | the 33-bit time is the true one if and only if the product fits 64 bits |
| TsSchedule.AudOnce | crates/rusty_esp_video-core/src/mpegts.rs:149-153 | what goes out begins with a delimiter and needs no second one |
| TsSchedule.RemuxSame | crates/rusty_esp_video-core/src/mpegts.rs:149-153 | muxing recovered units again recovers the same units |
| TsSchedule.TablesOnTime | crates/rusty_esp_video-core/src/mpegts.rs:137-145 | the first unit, every key unit and every unit 64 packets after a pair has PAT and PMT right in front, and fewer than 64 packets separate any unit's first packet from the last pair |
| TsSchedule.SincePsiCounts | crates/rusty_esp_video-core/src/mpegts.rs:212-217 | the mux's counter is the number of packets behind the last PMT in what it wrote |
| TsSchedule.TallyExactly | crates/rusty_esp_video-core/src/mpegts.rs:212-241 | over any run the packets and tables counted are those written |
| TsSchedule.IntervalKeptExactly | crates/rusty_esp_video-core/src/mpegts.rs:38-39 | in the stream of a run no more than 64 video packets ever follow a pair if and only if each unit's packets still fit behind those since the last pair |
| TsSchedule.OneUnitOver | crates/rusty_esp_video-core/src/mpegts.rs:137-145 | the interval is never missed by more than one unit |
| TsSchedule.IntervalBroken | crates/rusty_esp_video-core/src/mpegts.rs:6-7 | a first unit of 11755 bytes already breaks it: the stream has 65 packets behind one pair |
| Text.FmtU64 | crates/rusty_esp_video-core/src/lib.rs:83-95 | the backwards printer leaves the decimal digits at the end of its 20 bytes |
| Text.ParseDecimal | crates/rusty_esp_video-core/src/mjpeg_reader.rs:253-265 | reading undoes printing for every 64-bit number |
| Text.ParseUsizeLoop | crates/rusty_esp_video-core/src/mjpeg_reader.rs:253-265 | the checked accumulation, none on a non-digit or past 64 bits |
| Text.FindLoop | crates/rusty_esp_video-core/src/mjpeg_reader.rs:64-69 | the first window that matches |
| Multipart.Writer.Push | crates/rusty_esp_video-core/src/mjpeg_http.rs:76-95 | a JPEG appends exactly one part and counts it; anything else is refused and writes nothing |
| Multipart.Writer.WriteResponseHead | crates/rusty_esp_video-core/src/mjpeg_http.rs:54-64 | the head is appended |
| MultipartText.HeadIs | crates/rusty_esp_video-core/src/mjpeg_http.rs:54-64 | the head, line by line in text |
| MultipartText.PartIs | crates/rusty_esp_video-core/src/mjpeg_http.rs:76-95 | a part, line by line in text |
| MultipartText.NamesRead | crates/rusty_esp_video-core/src/mjpeg_reader.rs:130-204 | the names the reader looks for, in text |
| MultipartReaderLoop.Reader.Push | crates/rusty_esp_video-core/src/mjpeg_reader.rs:86-94 | the chunk is appended, or refused with the buffer as it was |
| MultipartReaderLoop.Reader.NextPart | crates/rusty_esp_video-core/src/mjpeg_reader.rs:122-163 | state, buffer and result are those of the specification |
| MultipartReaderLoop.Reader.ParsePart | crates/rusty_esp_video-core/src/mjpeg_reader.rs:165-234 | likewise for one part, each error case included |
| MultipartReaderLoop.Reader.Release | crates/rusty_esp_video-core/src/mjpeg_reader.rs:115-119 | what is behind the part moves to the front |
| MultipartReaderLoop.Reader.Receive | crates/rusty_esp_video-core/src/mjpeg_reader.rs:86-163 | the push, next, release loop delivers what the specification of one chunk delivers |
| MultipartRoundTrip.EveryChunking | crates/rusty_esp_video-core/src/mjpeg_reader.rs:86-265 | however a prefix of the stream is cut into chunks that fit, with or without a response head, exactly the frames wholly in it have been delivered, with their bytes and timestamps, without an error, unless the prefix shows the headers of a part larger than the buffer |
| MultipartRoundTrip.OnlyRoomFails | crates/rusty_esp_video-core/src/mjpeg_reader.rs:87-224 | the connection errs if and only if some chunk does not fit behind what is left over, or the headers of a part larger than the buffer have come |
| MultipartRoundTrip.ParseCut | crates/rusty_esp_video-core/src/mjpeg_reader.rs:165-234 | a part cut anywhere comes out exactly when it is whole, and is an error exactly when it is larger than the buffer and its headers are whole |
| MultipartReader.ReportedExactly | crates/rusty_esp_video-core/src/mjpeg_reader.rs:215-233 | for any input a reported part lies within the bytes received if and only if its end does not wrap around 64 bits |
| MultipartBoundaries.WholeStream | crates/rusty_esp_video-core/src/mjpeg_reader.rs:86-265 | the whole stream, however cut, delivers every frame |
| MultipartClosing.ClosedStream | crates/rusty_esp_video-core/src/mjpeg_reader.rs:184-195 | with the closing delimiter and anything behind it, cut anywhere: no error, exactly the whole frames, and the reader is done if and only if the closing line is whole |
| MultipartMore.ChunkingIrrelevant | crates/rusty_esp_video-core/src/mjpeg_reader.rs:86-234 | for any bytes: two cuts into chunks that both get through without an error deliver the same parts and leave the same state |
| MultipartRefusals.NewlinesSkipped | crates/rusty_esp_video-core/src/mjpeg_reader.rs:167-174 | line ends in front of a delimiter change nothing but where the part stands |
| MultipartRefusals.NoDelimiter | crates/rusty_esp_video-core/src/mjpeg_reader.rs:175-177 | anything but two dashes there is refused |
| MultipartRefusals.WrongBoundary | crates/rusty_esp_video-core/src/mjpeg_reader.rs:191-197 | a delimiter line of another boundary is refused |
| MultipartRefusals.BadFirstLine | crates/rusty_esp_video-core/src/mjpeg_reader.rs:182-190 | a first delimiter line is no boundary when it is empty or above 70 bytes, closing dashes aside |
| MultipartRefusals.LengthMissing | crates/rusty_esp_video-core/src/mjpeg_reader.rs:203-214 | a part whose headers give no length is Unsupported |
| MultipartRefusals.LengthMalformed | crates/rusty_esp_video-core/src/mjpeg_reader.rs:206-209 | one whose first length is no 64-bit number is refused |
| MultipartBoundaries.ExactBoundaries | crates/rusty_esp_video-core/src/mjpeg_reader.rs:136-151 | of the documented boundaries exactly those of 1 to 70 bytes survive, without space and semicolon behind a head, not ending in two dashes without one |
| Udp.ParseEncode | crates/rusty_esp_video-core/src/udp.rs:106-121 | every datagram header comes back, whatever follows it |
| Udp.DatagramLayout | crates/rusty_esp_video-core/src/udp.rs:56-84 | a datagram byte by byte: the magic, number, time, length, offset, codec and key flag, and as much of the packet as fits |
| Udp.RefusedExactly | crates/rusty_esp_video-core/src/udp.rs:180-192 | exactly the datagrams that are short, lack the magic, announce more than the buffer, or run past their packet are refused, each with its error, and nothing changes |
| UdpLoop.New | crates/rusty_esp_video-core/src/udp.rs:39-44 | refused exactly when no payload byte fits |
| UdpLoop.Framer.Frame | crates/rusty_esp_video-core/src/udp.rs:48-84 | each error case, and otherwise the specified datagrams and the next sequence number |
| UdpLoop.Reassembler.Push | crates/rusty_esp_video-core/src/udp.rs:180-213 | for any datagram the fields, the buffer and the result are those of the specification |
| UdpRun.EveryOrder | crates/rusty_esp_video-core/src/udp.rs:180-213 | every permutation of a packet's fragments completes it exactly at the last one, with the same bytes, timestamp, codec and key flag |
| UdpRun.LossyRun | crates/rusty_esp_video-core/src/udp.rs:180-213 | over up to 2^32 packets with any fragments lost, exactly those fully received are delivered, and complete, lost and in progress account for every packet seen |
| UdpRun.FreshRun | crates/rusty_esp_video-core/src/udp.rs:169-177 | the same account from a new reassembler |
| UdpRun.RepeatedFragment | crates/rusty_esp_video-core/src/udp.rs:206-211 | one harmful family: the first half sent twice completes a packet whose other half never came |
| UdpRepeats.RepeatsExactly | crates/rusty_esp_video-core/src/udp.rs:180-213 | for every list of arrivals, repeats and all: nothing is delivered before the first that fills the count, and what is delivered then is the packet if and only if each fragment has arrived or finds its bytes in the buffer |
| UdpRepeats.EveryRepeat | crates/rusty_esp_video-core/src/udp.rs:180-213 | the same to the last arrival: one delivery each time the count fills, when each is the packet, and what `complete`, `lost` and the packet in progress come to |
| UdpOrder.PushFragment | crates/rusty_esp_video-core/src/udp.rs:187-212 | what one fragment does: a displacing fragment that completes its packet reports the completion, any other displacing one reports the gap |
| Pacing.Pacer.Admit | crates/rusty_esp_video-core/src/pacer.rs:63-79 | the decision and every field are those of the specification, saturation included |
| Pacing.PacerIsGreedy | crates/rusty_esp_video-core/src/pacer.rs:17-22 | the one due time decides as the rule over the whole history: admit unless the window from some admitted frame would exceed the cap, for arrivals at any times |
| Pacing.WindowBound | crates/rusty_esp_video-core/src/pacer.rs:17-22 | any stretch admits at most its length in intervals plus the burst plus one |
| Pacing.FpsExactly | crates/rusty_esp_video-core/src/pacer.rs:17-22 | at most `fps` frames a second besides the burst and the first, for all arrivals and stretches, if and only if `fps` divides a million |
| Pacing.SteadyAdmitted | crates/rusty_esp_video-core/src/pacer.rs:63-79 | frames an interval apart are never dropped |
| Pacing.BurstAtOnce | crates/rusty_esp_video-core/src/pacer.rs:47-56 | at any rate the burst and one more frame go out at once, and a further one an interval later |
| Pacing.ZeroIsNoCap | crates/rusty_esp_video-core/src/pacer.rs:47-79 | a rate of zero admits everything |
| Budgets.Budget.Admit | crates/rusty_esp_video-core/src/pacer.rs:135-157 | the decision and every field are those of the specification, the cut to 64 bits included |
| Budgets.NeverOverfull | crates/rusty_esp_video-core/src/pacer.rs:135-157 | the bucket never exceeds the burst, and the counters count calls and bytes |
| Budgets.WindowBound | crates/rusty_esp_video-core/src/pacer.rs:86-89 | bytes admitted over any stretch of calls are at most the burst plus what the rate earns in the time passed from each call to the next, which for times in order is the time from first to last |
| Budgets.RateBound | crates/rusty_esp_video-core/src/pacer.rs:86-89 | the same from any bucket and for any call times |
| Budgets.CapInKbps | crates/rusty_esp_video-core/src/pacer.rs:109-157 | over any stretch of calls the bits admitted are at most `kbps` times the burst in milliseconds, 1 at least, and the time passed |
| Budgets.EarnedIsAdmitted | crates/rusty_esp_video-core/src/pacer.rs:135-157 | a frame within the burst whose bits the rate has earned since the last call is admitted, if the credit fits 64 bits |
| Budgets.BurstExactly | crates/rusty_esp_video-core/src/pacer.rs:114-116 | the burst is at most `burst_ms` of `kbps`, and that in whole bytes if and only if the product fits 64 bits |
| Budgets.ZeroIsNoCap | crates/rusty_esp_video-core/src/pacer.rs:135-140 | 0 kbps admits everything |
| Budgets.ClockExactly | crates/rusty_esp_video-core/src/pacer.rs:135-157 | for given call times, whatever the frames ask for, the bytes admitted are within burst and rate by the clock if and only if the credits that can be earned at those times are |
| Budgets.ClockBackOverspends | crates/rusty_esp_video-core/src/pacer.rs:141-146 | one breaking family: a look back credits the same time twice |
| Budgets.TrailsByCalls | crates/rusty_esp_video-core/src/pacer.rs:141-146 | the floored bucket never leads an exact one that spends the same, and trails it by less than a byte a call |
| Budgets.DecidesAlmostExactly | crates/rusty_esp_video-core/src/pacer.rs:147-156 | what is admitted the exact bucket covers, and what it covers with a byte a call to spare is admitted |
| Wire.RawExact | crates/rusty_esp_video-esp/src/udp_net.rs:161-168 | the raw sender's charge equals the bytes sent if and only if the packet is not empty |
| Wire.PacketsTotal | crates/rusty_esp_video-core/src/rtp.rs:382-419 | the exact number of bytes one JPEG takes on the wire |
| Wire.RtpCovered | crates/rusty_esp_video-esp/src/udp_net.rs:80-87 | the RTP charge covers every byte sent of an accepted JPEG if and only if a sum of its scan, tables and packet headers is within it |
| Wire.NoRestartCovered | crates/rusty_esp_video-esp/src/udp_net.rs:80-87 | that holds for every accepted JPEG without restart markers |
| Wire.RestartUndercharged | crates/rusty_esp_video-esp/src/udp_net.rs:80-87 | with restart markers it fails once four bytes a packet exceed what else the file holds and its allowance |
| Wire.RestartFileUndercharged | crates/rusty_esp_video-esp/src/udp_net.rs:80-87 | so the regenerated file with one table, restart markers and a scan of more than 172 times the MTU less 20 bytes is charged too little |
| UdpSenders.RtpJpegSender.Send | crates/rusty_esp_video-esp/src/udp_net.rs:91-111 | charge, drop or send, and the statistics, as specified |
| UdpSenders.RawUdpSender.Send | crates/rusty_esp_video-esp/src/udp_net.rs:161-180 | likewise for raw packets |
| UdpSenders.RtpWireCap | crates/rusty_esp_video-esp/src/udp_net.rs:64-71 | the bytes a budgeted RTP sender puts on the wire over any run of frames the charge covers are at most the burst plus what the rate earns in the time that passes |
| UdpSenders.RawWireCap | crates/rusty_esp_video-esp/src/udp_net.rs:145-151 | the same for the raw sender and packets that carry data |
| UdpSenders.RawAsAdmitted | crates/rusty_esp_video-esp/src/udp_net.rs:161-180 | the raw sender puts out exactly the bytes its budget admits |
| BudgetedStream.TallyExactly | crates/rusty_esp_video-esp/src/udp_net.rs:91-111 | over any run of the RTP sender every call is a frame, a drop or an error; packets and bytes are those on the wire, drops those of the budget |
| BudgetedStream.WireIsPassed | crates/rusty_esp_video-esp/src/udp_net.rs:91-111 | the wire carries the fragments of exactly the frames the budget has the bytes for, numbered without a gap |
| BudgetedStream.PassedComeOut | crates/rusty_esp_video-esp/src/udp_net.rs:91-111 | and the depayloader delivers exactly those frames, whole and in order, with no loss counted |
| HttpScans.NextNewline | crates/rusty_esp_video-core/src/http.rs:169-183 | eight bytes at a time finds the first newline |
| HttpScans.BlankLineScan | crates/rusty_esp_video-core/src/http.rs:242-252 | newline by newline is the window search for the blank line, from any start |
| HttpScans.ReadsAgree | crates/rusty_esp_video-core/src/http.rs:141-148 | over any reads the incremental check stops where the whole search would |
| HttpScans.ReadsFromNothing | crates/rusty_esp_video-core/src/http.rs:141-148 | so it does for a request read from its first byte on |
| HttpScans.QueryParam | crates/rusty_esp_video-core/src/mjpeg_http.rs:149-171 | the byte walk is the split on ampersands and first equals signs |
| HttpScans.QueryFound | crates/rusty_esp_video-core/src/mjpeg_http.rs:149-171 | out of a target printed as path, question mark and pairs comes the value of the first pair of a name |

## Left out

- Sockets, threads, timeouts and clocks (`net.rs`, `client.rs`, the receive loops of `udp_net.rs`), the firmware and the
  examples. An `emit`, sink or socket that fails in the middle of a frame is not modelled: it only cuts the output short.
- `h264.rs`, `jpeg.rs`, `encoder.rs`, `policy.rs`, `source.rs`: wrappers over encoders and an image source that are not
  part of this model, and small tables.
- Of `http.rs` and `mjpeg_http.rs`: responses, routing, header lookup, cookies and the viewing gate. Constant-time
  comparison has no counterpart here.
- The `pie-s3` vector arms: the hardware kernels are not part of this model; the portable arms are.
- Image decoding: a scan is a byte string. Which AC symbols share a code length in the Annex K tables is data of that
  standard, copied from the source.
- Counters (`frames`, `dropped`, `lost`, `complete`, `packets`) are unbounded where the source has 32 or 64 bits;
  sequence numbers, offsets, timestamps and continuity counters wrap as in the source.
- `Codec::tag` and `MediaPacket` come from a crate that is not part of this model; the tag is taken as the inverse of
  `Header::codec`, and PCM parameters are dropped.
- JpegLossyLink.LossyLink: runs of loss are shorter than 2^15 packets and last fragments start below 2^24
  (`JpegOffsets.OffsetsExactly` says why for the second; `JpegSplice.WholeExactly` does without the first).
- JpegSplice.WholeExactly: over all loss patterns at once; which single long run does harm is not stated.
- Pacing.WindowBound: for rates up to one million frames per second and times that stay below the end of the 64-bit clock.
- UdpRun.LossyRun: packets do not interleave and no fragment arrives twice; at most 2^32 packets follow one another.
- UdpRepeats.EveryRepeat: of one packet; datagrams of others in between are `UdpOrder.PushFragment`.
- Budgets.TrailsByCalls: for gaps between calls whose credit fits 64 bits.
- MultipartRoundTrip.EveryChunking: part sizes fit 64 bits, and frames may be empty although the writer refuses them.
- UdpSenders.RtpWireCap: for JPEGs whose charge covers them (`Wire.RtpCovered` says which).
- UdpSenders.RawWireCap: for packets that are not empty and fit the 32-bit length.
