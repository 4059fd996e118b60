# Touch input stack: a verified model

The boards this repository serves read touches from a panel, keep some of them to
themselves, forward the others to a connected source device, and report them to Android
through an input device. This project models that stack and proves what it does over
whole frames and whole runs.

| file | what it models |
|---|---|
| `Bytes.dfy`, `Geometry.dfy` | bytes, 16-bit fields, the additive checksum, `memcpy`; rectangles |
| `ProtocolB.dfy` | the input events written, the slots live for a reader of the device under multi-touch Protocol B with their tracking ids, and what is last written for each |
| `Serial.dfy`, `UartReceiver.dfy` | the serial port with reads of arbitrary size, `treadn`, header classification, the receive loop and its hunt for a header after an error |
| `UartReport.dfy`, `UartService.dfy` | `work_handler`, and the UART service from bytes to events |
| `RegionCommand.dfy` | the command for a rectangle that touches do not pass through |
| `MaskZones.dfy`, `RawTouch.dfy`, `ContactMask.dfy` | the mask-zone slots, the raw 64-byte packets, the per-contact memory and its two rule sets |
| `LgForward.dfy` | LG packets re-encoded as checksummed serial frames |
| `SourceForward.dfy`, `RecordBytes.dfy`, `ForwardTheorems.dfy`, `ForwardService.dfy` | filtering, compaction and re-splitting of frames for the source device; strings of records and what packets carry; what becomes of frames, runs and whole histories |
| `AndroidReport.dfy` | reassembly, reporting and forced release for Android |
| `Dictionary.dfy` | the hash dictionary behind the ini parser |
| `HidDescriptor.dfy` | the walk over a HID report descriptor |

Everything the source changes step by step is a class or a loop here: global arrays are
`array` fields, counters are fields, and each method is proved equal to a step function on
values. The theorems are about those step functions; where a theorem starts or ends at bytes,
it names their positions and values outright. Calls that write to a device append
to a field (`log`, `sent`, `delivered`).

## What was found

- Resynchronisation drops the byte after a `0x1f` that is not followed by `0xf7`, even when
  that byte is itself a `0x1f`. The frame behind garbage without a header pair is therefore
  recovered exactly when the garbage ends in an even number of `0x1f`, wherever the hunt
  began (`UartReceiver.Recovery`; a stream that loses a frame:
  `UartReceiver.StrayHeadByteLosesFrame`).
- The UART handler acts on a packet without a count even when no frame is incomplete: it
  reports the stored points again, and a contact just pressed is lifted
  (`UartService.StrayPacketLiftsContact`). Such a packet writes no contact event exactly when
  no stored point has a status that is acted upon and there is nothing to sweep
  (`UartReport.StrayPacketIsQuietExactlyWhen`).
- A contact that first shows up in a move record counts as pressed, but no tracking id is
  written for it, so its slot is not live (`UartService.MoveAloneIsInvisible`).
  Live are exactly the pressed contacts whose press came from a press record
  (`UartReport.LiveArePressedByPress`).
- The count a frame is forwarded with starts from the announced number and is lowered by every
  masked record, also by those behind the announced ones, while empty records are never taken
  off. An empty record is announced all the same (`ForwardTheorems.EmptyRecordIsAnnounced`), and
  a masked record behind the announced ones costs an unmasked one
  (`ForwardTheorems.MaskedExtraRecordCostsAnother`). A positive count is the number of records
  sent exactly when the empty records among the announced ones are as many as the masked ones
  behind them, or fewer and the count fills its packets
  (`ForwardTheorems.CountIsRightExactlyWhen`). No unmasked record among the announced ones is lost
  exactly when the masked ones behind do not outnumber the empty ones by more than the room in
  the last packet (`ForwardTheorems.AnnouncedAreSentExactlyWhen`), and none in the whole frame
  exactly when, besides, no unmasked one stands behind them
  (`ForwardTheorems.NothingIsLostExactlyWhen`; one that does is lost with nothing masked:
  `ForwardTheorems.UnannouncedRecordIsLost`).
- Under the IST rules a contact that drops (`0x04`) in a zone and comes down outside it keeps
  its flag: the first down record is forwarded, the rest of the life and the lifting record
  are not (`ContactMask.DropInZoneSplitsALife`). And a contact whose status was none of `0x00`,
  `0x04` and `0x07` is not judged at all when it comes down, so that a life in a zone is forwarded
  as a whole (`ContactMask.UnknownStatusUnmasksALife`). For every contact memory,
  `ContactMask.IstLifeIsUniformExactlyWhen` says when a life is treated as its first point
  decides, and `ContactMask.IstLifeInRun` says so of any life in any run; contacts whose records
  are whole lives always are (`ContactMask.IstLivesAreAllOrNothing`,
  `ForwardTheorems.IstLivesOnTheWire`).
- An LG record is forwarded as down only if its whole status byte is `0x01`; a tool type in
  the high nibble turns it into a release (`LgForward.StatusOnTheWire`, `LgForward.StrokeOnTheWire`).
- A frame of more than six points is reported to Android when the number of its records with a
  status stands at the announced one behind a packet; when a packet takes it past that number
  the frame is never reported (`AndroidReport.JumpedFrameIsNotReported`), and a packet that adds
  no record to a complete frame writes a lone sync (`AndroidReport.LargeFrameReportedOnce`).
- Two read timeouts release every contact unless the 32-bit silence counter stood at its last
  value (`AndroidReport.TwoTimeoutsRelease`). Only packets with the Huaxin id clear that counter:
  for such panels two timeouts always release, at any point of any run
  (`AndroidReport.HuaxinTimeoutsRelease`), while for a panel of another id a run from the start
  reaches the last value with a contact live, which two timeouts then leave live
  (`AndroidReport.LongSilenceKeepsContact`).
- The descriptor walk goes by the last Usage Page item of one or two bytes and the last such Usage
  item. It stops at a Usage item without data while an earlier touch usage is remembered
  (`HidDescriptor.StaleUsageIsSelected`), overlooks a Usage Page item of four bytes
  (`HidDescriptor.WidePageIsOverlooked`, `HidDescriptor.WideDigitizerPageIsMissed`), and knows
  neither Push and Pop items (`HidDescriptor.PoppedPageIsMissed`) nor Usage items that carry their
  own page (`HidDescriptor.ExtendedUsageIsMissed`). It picks the first declared
  touch usage exactly when each item that it selects undeclared or passes over declared comes after
  one that is both (`HidDescriptor.WalkIsRightExactlyWhen`).

Where code and documentation disagree the model follows the code: the comment on
`dictionary_set` says that a key cannot stay without a value, while the code keeps a key with
a NULL value and counts it; the comment on `setNonThroughTouchRegion` names a width of 5210
where the code divides by 5120.

## Model

| member | source | states |
|---|---|---|
| Bytes.CalcCheckSum | thirdpart/xbhuarttouch/TouchProcess.cpp:91-98 | adding from the last byte down gives the plain sum of the bytes modulo 256 |
| Bytes.AddUp | thirdpart/xbhuarttouch/TouchProcess.cpp:371-376 | adding upwards gives the same, the plain sum modulo 256, so the two ends of the line agree |
| Bytes.SumIsTotal | thirdpart/xbhuarttouch/TouchProcess.cpp:94-96 | a sum kept in eight bits is the plain sum modulo 256, for every byte string |
| Serial.Port.Read | thirdpart/xbhuarttouch/SerialProcess.cpp:208-230 | a read delivers any positive part of what is asked for, an error or end of file, and nothing but the bytes delivered changes |
| Serial.Treadn | thirdpart/xbhuarttouch/SerialProcess.cpp:232-261 | what arrived lies at the given place, in order, and nothing else changed; a port without faults delivers everything asked for however the reads chop it |
| UartReceiver.GetHeadData | thirdpart/xbhuarttouch/TouchProcess.cpp:261-309 | on the bytes themselves: 61 more behind 1f f7 43 00 02, 4 behind the three short acknowledgement headers, 8 behind that of a query, none behind anything else; a touch frame if and only if the first |
| UartReceiver.PassAt | thirdpart/xbhuarttouch/TouchProcess.cpp:322-393 | a pass moves forward, and hands on only a 67-byte window with touch header and matching checksum that starts where the pass did |
| UartReceiver.Receiver.FindHead | thirdpart/xbhuarttouch/TouchProcess.cpp:325-344 | the byte-wise hunt reads and drops exactly what the stream-level hunt says |
| UartReceiver.Receiver.TakeBody | thirdpart/xbhuarttouch/TouchProcess.cpp:350-385 | from six header bytes to the frame handed on or the start of a hunt |
| UartReceiver.Receiver.Turn | thirdpart/xbhuarttouch/TouchProcess.cpp:322-393 | one turn of the loop refines one pass over the stream |
| UartReceiver.Receive | thirdpart/xbhuarttouch/TouchProcess.cpp:311-394 | for every chopping of a stream into reads the handler gets the same frames, and they are sound |
| UartReceiver.RunSound | thirdpart/xbhuarttouch/TouchProcess.cpp:325-392 | resync safety: the frames handed on are disjoint windows of the stream in increasing order, each with touch header and matching checksum |
| UartReceiver.RunExtends | thirdpart/xbhuarttouch/TouchProcess.cpp:322-393 | bytes that come later never change what was done before them |
| UartReceiver.Lossless | thirdpart/xbhuarttouch/TouchProcess.cpp:261-394 | a stream that starts with well-formed frames (67 bytes with touch header and sum, acknowledgements of 10 or 14) hands on exactly their touch frames, in order, first; if nothing follows them there was no error and no hunt |
| UartReceiver.Recovery | thirdpart/xbhuarttouch/TouchProcess.cpp:325-344 | wherever a receiver hunts, the good frame behind garbage without a header pair is handed on as the next one if and only if the garbage ends in an even number of 0x1f |
| UartReceiver.RecoveryWithoutHeadBytes | thirdpart/xbhuarttouch/TouchProcess.cpp:325-344 | garbage free of 0x1f never costs the frame behind it, and the hunt ends with it |
| UartReceiver.RejectedIsHunted | thirdpart/xbhuarttouch/TouchProcess.cpp:357-385 | six bytes of no known header where one is due, or a touch frame with a wrong last byte wherever it is met, cost exactly their bytes and count as one error, and what follows is hunted |
| UartReceiver.RecoveryFromStart | thirdpart/xbhuarttouch/TouchProcess.cpp:322-392 | on a stream that starts with six bytes of no known header, or with a touch frame whose last byte is not its sum, the frame behind that and the garbage is received if and only if the garbage ends in an even number of 0x1f |
| UartReceiver.FalseHeadCostsSix | thirdpart/xbhuarttouch/TouchProcess.cpp:325-344 | 1f f7 without the rest of a touch header costs a hunting receiver six bytes: a frame right behind them is handed on next, one that starts within them never |
| UartReceiver.StrayHeadByteLosesFrame | thirdpart/xbhuarttouch/TouchProcess.cpp:328-333 | behind six zero bytes at the start of a stream every good frame is received, and with one 0x1f in between it is lost |
| UartReport.WorkHandler.Store | thirdpart/xbhuarttouch/TouchProcess.cpp:131-141 | the points of a packet, each read from its ten bytes, go behind the ones received; the rest of the table stays |
| UartReport.WorkHandler.ReportPoint | thirdpart/xbhuarttouch/TouchProcess.cpp:150-184 | the events written for a press, a release and a move, value by value, with press status and release count; any other status does nothing |
| UartReport.WorkHandler.ReleaseAll | thirdpart/xbhuarttouch/TouchProcess.cpp:189-197 | every pressed contact is released on the device, in order, and none stays pressed |
| UartReport.WorkHandler.Handle | thirdpart/xbhuarttouch/TouchProcess.cpp:116-205 | one call of the handler is one step of the packet machine |
| UartReport.HandleKeepsOk | thirdpart/xbhuarttouch/TouchProcess.cpp:120-145 | recvPoints never passes allPoint, releases are only counted for complete frames, ids and counts stay within the tables |
| UartReport.RunKeepsLive | thirdpart/xbhuarttouch/TouchProcess.cpp:146-204 | no stuck touch: after every packet of every run each slot live on the device has its press status set |
| UartReport.Reassembly | thirdpart/xbhuarttouch/TouchProcess.cpp:120-186 | the packets that complete a frame, from any point of it, end as storing and reporting its points in one go would; before the last only button and sync events are written |
| UartReport.FrameRefinesOneShot | thirdpart/xbhuarttouch/TouchProcess.cpp:116-186 | a frame of 1 to 40 points in its packets leaves the table holding its records in order and reports them once, at the last packet |
| UartReport.FramesRefineOneShots | thirdpart/xbhuarttouch/TouchProcess.cpp:116-205 | any run of such frames, from any state, is handled as decoding and reporting each in one go, on what the frames before it left |
| UartReport.UpCount | thirdpart/xbhuarttouch/TouchProcess.cpp:150-173 | all points of a frame count as releases if and only if each lifts a pressed contact and none is named twice; then those contacts are up and the others as before |
| UartReport.ReleaseFrame | thirdpart/xbhuarttouch/TouchProcess.cpp:187-204 | the touch button is released if and only if every point of the frame is a release; then no contact is pressed and no slot live |
| UartReport.ReportShowsPoints | thirdpart/xbhuarttouch/TouchProcess.cpp:150-184 | the slot of a contact moved or newly pressed stands written at the position and size of its last record; pressed by it, it is live under its own number, as a finger, and moved it stays live if it was |
| UartReport.LiveArePressedByPress | thirdpart/xbhuarttouch/TouchProcess.cpp:146-204 | after every packet of every run the press statuses and the count of releases are those told from the records reported, the slots live are exactly those whose press came from a press record, and each has its own number for a tracking id |
| UartReport.FrameShowsRecord | thirdpart/xbhuarttouch/TouchProcess.cpp:116-186 | from the bytes of a frame's packets, for a contact named once: status 2 presses it under its own number at the position and size in its record or lifts it, 3 moves it there, any other status leaves it as it was |
| UartReport.FrameLeavesOthers | thirdpart/xbhuarttouch/TouchProcess.cpp:116-204 | a frame leaves press status, slot and picture of every contact alone that it does not name, unless each of its records lifts a pressed contact |
| UartReport.OneSyncPerPacket | thirdpart/xbhuarttouch/TouchProcess.cpp:187-204 | every packet ends in the touch button and one sync, and holds no other |
| UartReport.StrayPacketIsQuietExactlyWhen | thirdpart/xbhuarttouch/TouchProcess.cpp:126-204 | outside a frame, from every state, a packet without a count writes only button and sync events if and only if no stored point has status 2 or 3 and the releases counted were fewer than the points or no contact is pressed |
| UartService.Serve | thirdpart/xbhuarttouch/TouchProcess.cpp:311-394 | for every chopping of the stream the events of the service are those of handling the received frames in order, and its live slots are the contacts pressed by a press record, each under its own number |
| UartService.FramesOnTheLine | thirdpart/xbhuarttouch/TouchProcess.cpp:116-394 | a stream whose touch frames are the packets of a run of point frames, acknowledgements mixed in, is reported frame by frame, each as its points, once |
| UartService.StrayPacketLiftsContact | thirdpart/xbhuarttouch/TouchProcess.cpp:126-173 | a fresh service that gets a one-point press and then a packet without a count shows the contact and takes it off again |
| UartService.MoveAloneIsInvisible | thirdpart/xbhuarttouch/TouchProcess.cpp:174-183 | a fresh service that gets a one-point move has the contact pressed and no slot live |
| RegionCommand.SetNonThroughTouchRegion | thirdpart/xbhuarttouch/TouchProcess.cpp:469-513 | on the bytes: header, id, the corners scaled by 32767 over 1920x1080, 3840x2160 or 5120x2160 and truncated toward zero, low byte first, zeros for an unknown resolution, and the sum modulo 256 last |
| RegionCommand.ScaleIsStrict | thirdpart/xbhuarttouch/TouchProcess.cpp:474-495 | distinct pixels get distinct, equally ordered coordinates |
| RegionCommand.UnscaleInverts | thirdpart/xbhuarttouch/TouchProcess.cpp:474-495 | dividing back with rounding up recovers the pixel |
| RegionCommand.RegionRoundTrip | thirdpart/xbhuarttouch/TouchProcess.cpp:469-513 | for an on-screen rectangle in each resolution the corners lie in 0..32767, decode to the pixel corners exactly, and contain a scaled pixel if and only if the rectangle contains the pixel |
| MaskZones.ZoneTable.AddMaskZone | thirdpart/hhttouchProcess/TouchProcess.cpp:1952-1982 | adds one copy exactly when fewer than 15 rectangles are stored, and otherwise changes nothing |
| MaskZones.ZoneTable.DeleteMaskZone | thirdpart/hhttouchProcess/TouchProcess.cpp:1984-2006 | removes one copy exactly when there is one, and otherwise changes nothing |
| MaskZones.ZoneTable.PointInside | thirdpart/hhttouchProcess/TouchProcess.cpp:2169-2180 | true if and only if x and y lie within the corners, borders included, of some stored rectangle |
| MaskZones.CountFull | thirdpart/hhttouchProcess/TouchProcess.cpp:1955-1969 | the slots are exhausted exactly when every one is used |
| MaskZones.Replay | thirdpart/hhttouchProcess/TouchProcess.cpp:1952-2181 | any history of additions and deletions followed by a test answers as a bounded multiset of rectangles would |
| RawTouch.IsPointDownInsideOsdRegion | thirdpart/hhttouchProcess/TouchProcess.cpp:2152-2181 | true if and only if a zone in force contains the little-endian coordinates in bytes 3 to 6 of the record, all four bytes counting |
| RawTouch.TouchOfRecord | thirdpart/hhttouchProcess/TouchProcess.cpp:2163-2164 | contact, status nibble and zone test of every record of a run, from the bytes of its packet |
| ContactMask.Projection | thirdpart/hhttouchProcess/TouchProcess.cpp:2297-2471 | contacts do not interfere: memory and marks of a contact are those of its own records alone, whatever is interleaved |
| ContactMask.LgStaysConsistent | thirdpart/hhttouchProcess/TouchProcess.cpp:3250-3291 | the flag is only ever set on a contact that is down |
| ContactMask.LgStroke | thirdpart/hhttouchProcess/TouchProcess.cpp:3250-3291 | a down record is masked if and only if the first point of its stroke lay in a zone |
| ContactMask.LgStrokesAreAllOrNothing | thirdpart/hhttouchProcess/TouchProcess.cpp:3243-3293 | the same over every run from a cleared table, with any interleaving of contacts and any change of zones |
| ContactMask.StrokeBegins | thirdpart/hhttouchProcess/TouchProcess.cpp:3250-3291 | every down record belongs to a stroke, found from its position in the interleaved run, and the beginning of that stroke decides its mark |
| ContactMask.IstMemory | thirdpart/hhttouchProcess/TouchProcess.cpp:2297-2471 | IST memory as a function of the contact's records: the flag says that the contact came or dropped in a zone and has not lifted since, and a record is masked by its own point behind 0x00 or 0x04, by the flag behind 0x07, never otherwise |
| ContactMask.IstLife | thirdpart/hhttouchProcess/TouchProcess.cpp:2306-2412 | in a life, whatever the contact was before, the first record is judged by its own point if the contact was up, by the flag if it was down and not at all otherwise, the later ones by the flag that leaves; the flag ends clear |
| ContactMask.IstLifeIsUniformExactlyWhen | thirdpart/hhttouchProcess/TouchProcess.cpp:2306-2412 | for every contact memory a life is masked as a whole, as its first point decides, if and only if the contact was up and the flag was clear or the point lies in a zone, or it was down and the flag agrees with the point, or its status was any other, the flag clear and the point in no zone |
| ContactMask.IstLifeInRun | thirdpart/hhttouchProcess/TouchProcess.cpp:2297-2471 | the same for any life of any contact anywhere in a run, from any table and among any other records |
| ContactMask.DropInZoneSplitsALife | thirdpart/hhttouchProcess/TouchProcess.cpp:2415-2466 | a concrete life of which the first down record is forwarded and the rest masked |
| ContactMask.UnknownStatusUnmasksALife | thirdpart/hhttouchProcess/TouchProcess.cpp:2306-2412 | a concrete life in a zone that is forwarded as a whole behind a record of status 0x02 |
| ContactMask.IstLivesAreAllOrNothing | thirdpart/hhttouchProcess/TouchProcess.cpp:2297-2471 | over every run from a cleared table a contact whose records are whole lives is masked life by life, each as its first point decides, and its flag ends clear |
| LgForward.LgForwarder.RecodeRecord | thirdpart/hhttouchProcess/TouchProcess.cpp:3243-3294 | one record in place: contact memory, status byte and id byte |
| LgForward.LgForwarder.Process | thirdpart/hhttouchProcess/TouchProcess.cpp:3215-3324 | one packet is one step: with the LG id 0x10 it sends one frame more, accepted by a receiver, and runs the contact memory over its records; with any other it does nothing |
| LgForward.ForwardAll | thirdpart/hhttouchProcess/TouchProcess.cpp:3215-3324 | through any history of zone changes and packets of any id the forwarder and its zone table send what the run of the packets sends, each under the zones in force when it arrives |
| LgForward.RunSendsFrames | thirdpart/hhttouchProcess/TouchProcess.cpp:3219-3324 | a run sends the frames of its LG packets, and its contact memory is that of their records |
| LgForward.FrameIsWellFormed | thirdpart/hhttouchProcess/TouchProcess.cpp:3232-3304 | every frame built passes the receiver's header and checksum tests |
| LgForward.EncoderMeetsDecoder | thirdpart/hhttouchProcess/TouchProcess.cpp:3232-3304 | decoding a frame gives back the raw ids, positions, sizes and count, each from its bytes, with status 3 for forwarded down and 2 otherwise for ids above 0 |
| LgForward.StatusOnTheWire | thirdpart/hhttouchProcess/TouchProcess.cpp:3219-3293 | over any run of packets and zones a record of the n-th LG packet leaves in the n-th frame as down if and only if its raw status byte says down and its stroke began in no zone in force at that moment |
| LgForward.StrokeOnTheWire | thirdpart/hhttouchProcess/TouchProcess.cpp:2163-2164 | from raw bytes to sent bytes, over any run: a record leaves with status 3 if and only if its raw status byte is 1 and the raw coordinates of the first record of its stroke lay in no zone then in force, else with 2 |
| LgForward.SentIsReceived | thirdpart/hhttouchProcess/TouchProcess.cpp:3296-3316 | the frames any run sends, put on the line one after the other, are received exactly, without error |
| SourceForward.SourceForwarder.FilterRecord | thirdpart/hhttouchProcess/TouchProcess.cpp:2297-2471 | one record: contact memory, status byte in the buffer and count of valid points |
| SourceForward.SourceForwarder.FilterPointsForSourceTouch | thirdpart/hhttouchProcess/TouchProcess.cpp:2262-2477 | one packet into its place in the frame buffer with masked records blanked, the count lowered by their number; refused beyond the last place |
| SourceForward.SourceForwarder.CloseUp | thirdpart/hhttouchProcess/TouchProcess.cpp:2507-2517 | the send buffer holds the records with a status, closed up, then zeros |
| SourceForward.SourceForwarder.SendFilterPointsToSource | thirdpart/hhttouchProcess/TouchProcess.cpp:2480-2568 | the packets written are the closed-up records in 60-byte parts, one for every six valid points begun, each of 64 bytes with the leading bytes and the count of its format |
| SourceForward.SourceForwarder.Forward | thirdpart/hhttouchProcess/TouchProcess.cpp:3536-3577 | one raw packet is one step of the forwarding machine, and valid points never outnumber raw ones |
| ForwardTheorems.ForwardFrame | thirdpart/hhttouchProcess/TouchProcess.cpp:2262-2568 | for every frame, whatever its records: nothing is written before its last packet; then as many packets as the valid count needs, with the leading bytes of the format and the count in the first, carrying the unmasked records with a status, in order, as far as there is room |
| ForwardTheorems.PayloadBytes | thirdpart/hhttouchProcess/TouchProcess.cpp:2292 | the record bytes of a run are the bytes 1 to 60 of its packets, in order |
| ForwardTheorems.StrayPacketsWriteNothing | thirdpart/hhttouchProcess/TouchProcess.cpp:3564-3576 | packets without a count behind a complete frame, however many, make the forwarder write nothing |
| ForwardTheorems.CountIsRightExactlyWhen | thirdpart/hhttouchProcess/TouchProcess.cpp:2288-2568 | a positive announced count is the number of records in the packets written if and only if the empty records among the announced ones are as many as the masked ones behind them, or fewer and the count is a multiple of six; otherwise nothing is written |
| ForwardTheorems.AnnouncedAreSentExactlyWhen | thirdpart/hhttouchProcess/TouchProcess.cpp:2288-2568 | the packets carry every unmasked record among the announced ones if and only if the masked records behind them exceed the empty ones by no more than the room left |
| ForwardTheorems.NothingIsLostExactlyWhen | thirdpart/hhttouchProcess/TouchProcess.cpp:2288-2568 | the packets carry every unmasked record of the whole frame if and only if, besides, no unmasked record with a status stands behind the announced ones |
| ForwardTheorems.UnannouncedRecordIsLost | thirdpart/hhttouchProcess/TouchProcess.cpp:2288-2568 | a packet that announces one record and holds two, none of them masked, is forwarded without the second |
| ForwardTheorems.EmptyRecordIsAnnounced | thirdpart/hhttouchProcess/TouchProcess.cpp:2288-2568 | a packet that announces one record and holds none is forwarded with count one and no record |
| ForwardTheorems.MaskedExtraRecordCostsAnother | thirdpart/hhttouchProcess/TouchProcess.cpp:2288-2568 | a packet that announces one record and has a masked one behind it is not forwarded, although the announced one is not masked |
| ForwardTheorems.ForwardingConservesPoints | thirdpart/hhttouchProcess/TouchProcess.cpp:2262-2568 | a frame of n records and nothing behind them is announced with the number of its unmasked records and carries exactly those |
| RecordBytes.SplitJoins | thirdpart/hhttouchProcess/TouchProcess.cpp:2520-2566 | joining the emitted packets gives the records back, zero-padded; the count stands in the first packet only |
| ForwardTheorems.SplitJoinRoundTrip | thirdpart/hhttouchProcess/TouchProcess.cpp:2549-2566 | packets emitted in the with-driver format and fed to a forwarder with no flag and no zone are emitted again unchanged |
| ForwardTheorems.ForwardingIsIdempotent | thirdpart/hhttouchProcess/TouchProcess.cpp:3538-3576 | what a tidy frame becomes is a fixed point of a second forwarder that masks nothing |
| ForwardTheorems.ForwardRun | thirdpart/hhttouchProcess/TouchProcess.cpp:3538-3576 | over any run of tidy frames the contact memory runs through all records in one go and each frame sends its unmasked records as that memory decides |
| ForwardTheorems.ForwardedOfContact | thirdpart/hhttouchProcess/TouchProcess.cpp:2262-2568 | over any run of tidy frames the packets written carry of each contact exactly the records with a status that its own memory does not mask, in order |
| ForwardTheorems.IstLivesOnTheWire | thirdpart/hhttouchProcess/TouchProcess.cpp:2297-2568 | from a fresh table, of a contact whose records are whole lives exactly the records of those lives are sent that did not begin in a zone, however spread over frames |
| ForwardService.ForwardAll | thirdpart/hhttouchProcess/TouchProcess.cpp:3536-3577 | through any history of zone changes and packets the forwarder and its zone table write what the run of the packets writes, each under the zones in force when it arrives |
| ProtocolB.SweepReleases | thirdpart/hhttouchProcess/TouchProcess.cpp:3414-3422 | the release loop takes exactly the recorded contacts off the device |
| AndroidReport.AndroidReporter.ReportPoint | thirdpart/hhttouchProcess/TouchProcess.cpp:2810-2862 | the events written for a contact put down or lifted, value by value, tool and touch button included, and its shadow status; ids above the limit and other statuses do nothing |
| AndroidReport.AndroidReporter.ParseOne | thirdpart/hhttouchProcess/TouchProcess.cpp:2727-2751 | id, status nibble, position, size and tool of a record from its ten bytes |
| AndroidReport.AndroidReporter.Gather | thirdpart/hhttouchProcess/TouchProcess.cpp:3086-3141 | the records of a packet that have a status go behind those gathered |
| AndroidReport.AndroidReporter.ParseAndReportToAndroid | thirdpart/hhttouchProcess/TouchProcess.cpp:2718-3212 | one packet is one step of the reporting machine, and a packet of another id none at all |
| AndroidReport.AndroidReporter.ReleaseByForce | thirdpart/hhttouchProcess/TouchProcess.cpp:3381-3395 | every contact recorded as down is released, with one sync if there was any |
| AndroidReport.AndroidReporter.OnRead | thirdpart/hhttouchProcess/TouchProcess.cpp:3374-3490 | what each outcome of a read does to counters, shadow and device |
| AndroidReport.ForceReleaseEmpties | thirdpart/hhttouchProcess/TouchProcess.cpp:3409-3430 | after a forced release no slot is live, and one sync was written if there was anything to release |
| AndroidReport.LostPanelReleases | thirdpart/hhttouchProcess/TouchProcess.cpp:3374-3395 | after a read error at any point of any run no slot is live |
| AndroidReport.ReportAll | thirdpart/hhttouchProcess/TouchProcess.cpp:2718-3490 | from its construction on, through any reads, the reporter writes what the run of the reads writes, and the live slots are those recorded as down, each under its own number |
| AndroidReport.RunKeepsShadow | thirdpart/hhttouchProcess/TouchProcess.cpp:2810-2866 | after every read of every run the live slots are exactly those recorded as down, each with its own number for a tracking id |
| AndroidReport.TwoTimeoutsRelease | thirdpart/hhttouchProcess/TouchProcess.cpp:3409-3430 | after two timeouts in a row no slot is live, if and only if none was before or the silence counter was not about to wrap |
| AndroidReport.HuaxinTimeoutsRelease | thirdpart/hhttouchProcess/TouchProcess.cpp:3409-3482 | for panels with package id 0xfb two timeouts in a row leave no slot live, at any point of any run |
| AndroidReport.LongSilenceKeepsContact | thirdpart/hhttouchProcess/TouchProcess.cpp:3409-3482 | for any other panel a run from the start after which two timeouts leave a slot live |
| AndroidReport.ReportShowsPoints | thirdpart/hhttouchProcess/TouchProcess.cpp:2812-2839 | each contact that is down stands written at the position, size and tool of its last record |
| AndroidReport.OnePacketWrites | thirdpart/hhttouchProcess/TouchProcess.cpp:2721-2866 | all that a one-packet frame writes, from its bytes: the events of its six records in order and one sync |
| AndroidReport.OnePacketShowsRecord | thirdpart/hhttouchProcess/TouchProcess.cpp:2760-2862 | the last record of the packet that names a contact with status 2, 3, 4 or 7 decides: 3 and 7 leave it recorded as down, live under its number and drawn with the position, size and tool in its bytes, 2 and 4 leave it lifted |
| AndroidReport.OnePacketLeavesOthers | thirdpart/hhttouchProcess/TouchProcess.cpp:2760-2862 | every slot that no record of the packet acts on, or above the limit, stays as it was |
| AndroidReport.OnePacketSyncsOnce | thirdpart/hhttouchProcess/TouchProcess.cpp:2864-2866 | the packet ends in one sync and holds no other |
| AndroidReport.LargeFrameReportedOnce | thirdpart/hhttouchProcess/TouchProcess.cpp:3020-3201 | a frame announcing n points, n above 6, in any number of packets is reported, its first n records with a status in order and one sync, at the first later packet that brings their number to n; packets that leave it at n write a lone sync; before that, and if the number jumps past n, nothing is written |
| AndroidReport.LargeFrameWrites | thirdpart/hhttouchProcess/TouchProcess.cpp:3086-3201 | all that a complete larger frame writes, from its bytes: the events of all its records in order, without the touch button, then the syncs |
| AndroidReport.LargeFrameShowsRecord | thirdpart/hhttouchProcess/TouchProcess.cpp:3144-3201 | the last record of the frame that names a contact with a status that acts decides, from the bytes of its packet, as in a frame of one packet |
| AndroidReport.LargeFrameLeavesOthers | thirdpart/hhttouchProcess/TouchProcess.cpp:3144-3201 | every slot that no record of the frame acts on stays as it was, and there are as many syncs as packets that left the number of records at n |
| AndroidReport.GatheredCounts | thirdpart/hhttouchProcess/TouchProcess.cpp:3086-3141 | the number of records gathered is that of the records whose status nibble is not zero |
| AndroidReport.FewestPackets | thirdpart/hhttouchProcess/TouchProcess.cpp:3020-3201 | in as few packets as n points need, only the last one can complete the frame, and does if and only if n records have a status |
| AndroidReport.JumpedFrameIsNotReported | thirdpart/hhttouchProcess/TouchProcess.cpp:3020-3201 | seven points announced and twelve records down in two packets: nothing is written |
| Dictionary.DictionaryHash | thirdpart/hhttouchProcess/dictionary.cpp:77-93 | the loop computes the recursive hash |
| Dictionary.KnownHashes | thirdpart/hhttouchProcess/dictionary.cpp:77-93 | the hashes of the empty string, "a" and "ab" |
| Dictionary.MemDouble | thirdpart/hhttouchProcess/dictionary.cpp:27-38 | a copy of twice the size, the second half zero |
| Dictionary.Dictionary.constructor | thirdpart/hhttouchProcess/dictionary.cpp:106-121 | an empty map with room for at least 128 entries |
| Dictionary.Dictionary.Find | thirdpart/hhttouchProcess/dictionary.cpp:169-179 | the search finds the key exactly when the map has it: skipping on a hash mismatch never changes the answer, under any collisions |
| Dictionary.Dictionary.Get | thirdpart/hhttouchProcess/dictionary.cpp:164-181 | the value of a present key, a NULL value included, else the default |
| Dictionary.Dictionary.FreeSlot | thirdpart/hhttouchProcess/dictionary.cpp:253-257 | the wrap-around scan stops, at the first hole from slot n on |
| Dictionary.HoleExists | thirdpart/hhttouchProcess/dictionary.cpp:251-253 | fewer keys than slots if and only if there is a hole |
| Dictionary.Dictionary.Grow | thirdpart/hhttouchProcess/dictionary.cpp:236-249 | doubling keeps the represented map and leaves a hole |
| Dictionary.Dictionary.Set | thirdpart/hhttouchProcess/dictionary.cpp:210-264 | binds the key in the map, doubling exactly when a new key meets a full table; -1 and no change for a NULL key |
| Dictionary.Dictionary.Unset | thirdpart/hhttouchProcess/dictionary.cpp:277-312 | removes the key from the map, or changes nothing |
| Dictionary.UsedIsMapSize | thirdpart/hhttouchProcess/dictionary.h:36-42 | n is the number of keys of the map |
| Dictionary.Replay | thirdpart/hhttouchProcess/dictionary.cpp:164-312 | any history of calls on a new dictionary answers as a plain map would, and n is the size of that map |
| Dictionary.Exercise | thirdpart/hhttouchProcess/dictionary.cpp:349-382 | keys set in a new dictionary are all found again, and after they are unset n is zero |
| HidDescriptor.SetTouchScreenReportDescAndFeature | thirdpart/timelinkh3touch/TouchProcess.cpp:490-568 | result, length property and stopping offset of the walk over any descriptor bytes |
| HidDescriptor.WalkItems | thirdpart/timelinkh3touch/TouchProcess.cpp:499-564 | from each item boundary on the walk visits boundaries only, stays within the array and ends at the first selecting item |
| HidDescriptor.WalkFindsFirstSelection | thirdpart/timelinkh3touch/TouchProcess.cpp:499-564 | for all short items: the first Usage item with the digitizer page in force and a touch usage remembered, looking backwards for both, or none |
| HidDescriptor.WalkFindsFirstDeclaration | thirdpart/timelinkh3touch/TouchProcess.cpp:499-564 | with Usage and Usage Page items of one or two bytes: the first Usage 0x04 or 0x22 under the most recent Usage Page 0x0D, or none |
| HidDescriptor.LatestIsInForce | thirdpart/timelinkh3touch/TouchProcess.cpp:513-524 | without Push and Pop items the most recent Usage Page is the one in force |
| HidDescriptor.WalkIsRightExactlyWhen | thirdpart/timelinkh3touch/TouchProcess.cpp:513-561 | for all short items: the first touch usage declared under the page in force, Push, Pop and four-byte items included, is picked if and only if each item selected undeclared or declared and passed over comes after one that is both |
| HidDescriptor.StaleUsageIsSelected | thirdpart/timelinkh3touch/TouchProcess.cpp:526-541 | the seven bytes of a descriptor without any declared touch usage, at whose offset 6 the walk stops all the same |
| HidDescriptor.WidePageIsOverlooked | thirdpart/timelinkh3touch/TouchProcess.cpp:513-541 | nine bytes that leave the digitizer page by a Usage Page item of four bytes, and the walk stops at the Joystick behind it |
| HidDescriptor.WideDigitizerPageIsMissed | thirdpart/timelinkh3touch/TouchProcess.cpp:513-541 | seven bytes that declare a touch screen under a Usage Page item of four bytes, and the walk finds nothing |
| HidDescriptor.PoppedPageIsMissed | thirdpart/timelinkh3touch/TouchProcess.cpp:513-541 | eight bytes that push, leave and pop the digitizer page before a touch screen usage, and the walk finds nothing |
| HidDescriptor.ExtendedUsageIsMissed | thirdpart/timelinkh3touch/TouchProcess.cpp:526-541 | a four-byte Usage item that carries the digitizer page and the touch screen usage, and the walk finds nothing |

## Left out

- Receive: the source loops for ever; the model stops where a read would wait for good, and takes a port without errors or end of file in mid-frame.
- Serve: takes counts up to 40 and contact ids below 40 in the points of a frame, as the handler does; larger ones index past its tables.
- Forward: takes ids below 42 and counts within the frame buffer, as the source does, and zero screen offsets; `processPointScreenDown` can lower the valid count twice for one record.
- StrayPacketsWriteNothing: the packet index is an unbounded integer here, a signed 32-bit one in the source.
- Process: takes ids below 42; `pointsToSource` fields `id` and `curStatus` are written and never read again, so the memory keeps only the previous status and the flag.
- ParseAndReportToAndroid: takes gathered points within the table of 42; the Jiage branch is not modelled, since it reports moves without a tracking id and its press status survives a forced release; calibration (off by default) is not either.
- OnRead: reconnecting to a panel after an error, and the failure with errno 0, do nothing to the modelled state.
- DictionaryHash: characters are widened as unsigned, as on ARM; plain `char` is signed elsewhere. No result depends on it.
- Grow: allocation never fails and sizes are unbounded integers.
- SetNonThroughTouchRegion: requires that the products with 32767 fit 32 bits, since the source's overflow is undefined; the write of the command is left out, as are the delete and scale commands, which have constant bodies.
- SetTouchScreenReportDescAndFeature: the three file writes and the query of the touch count are a parameter; long items (section 6.2.2.3 of the Device Class Definition for HID 1.11) are read as short items by the source and so in the theorems here, declarations are those of Usage items alone, and a walk that would read past the array is excluded.
- MaskZones: the `id`, `w` and `h` fields of a slot and the functions that set a slot by id; the float conversion of screen coordinates.
- ReportShowsPoints: speaks of what is written; of that, neither input device lets the minor touch size or the touch button through, since their setup enables neither.
- File descriptors, `select`, ioctl, uinput setup, Android properties, device detection, threads, sleeps and logging.
- `sendTouchDataToSource`, whose only call is commented out; `cacheTouchData`, `parseAndReportTouch` and pen rewriting of the timelink service, whose layout constants change at run time.
- The zy, ycl and istg UART services, which are near copies of the one modelled; hotkeys.
- XbhService, XbhModuleInterface, XbhFrontBoard, XbhPlatformFactory, JNI, vendor SDK wrappers and XbhShell: dispatch tables and I/O.
