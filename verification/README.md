# BootyCall in Dafny

BootyCall is a network boot appliance: it serves bootloaders over TFTP, extracts kernels and
initrds from boot images into a per-host cache, and drives a small OLED panel. This project
models those parts of it that are algorithms or protocols and proves what they promise.
`dafny verify dfyconfig.toml` checks everything.

## What is modelled

**TFTP transfers.** `Wire` is the packet layout (section 5 of RFC 1350, RFC 2347),
`Request` the parsing of read requests and option negotiation, and `Utf8` the check on their
text (section 3 of RFC 3629). `BlockStream` cuts a file into
blocks and reads it through a reader that may return short reads. `SenderSpec` is the
windowed go-back-N sender (section 4 of RFC 7440) as a state machine over single steps;
`Course` is the one sequence of steps that a given environment (what each receive yields,
which sends fail, when the deadline passes, what each file read is granted) forces on that
machine. `Server` is the loop as it runs, a class whose fields are updated in place, proved
to follow that course to its end, and `Handler` one request from packet to host mark, with
everything it sends and receives accounted for. `Network` composes the sender with a
receiver that compares 16-bit block numbers and with channels that carry the actual packet
bytes, lose and duplicate them, and deliver them in order or in any order. No packet carries
its absolute block number: the invariant recovers it. `Schedules` is about runs on which
nothing goes wrong, in whatever order things happen, `Recovery` about exactly which states
a transfer can still recover from, and `Limits` gives the exact file length at which each
safety property fails once datagrams may be reordered; `Driving` holds the stretches of run
these two are built from.

**The extraction cache.** `Walker` is the depth-bounded directory search on arbitrary
directory graphs, `Extraction` the choice of artefacts from ISO and GPT/FAT images and the
size-capped copy, and `Detection` says without the search which files those are and which
answer each kind of image gives. `Slice` is the window onto a partition. `Cache` says what synchronising one
host directory does and compares it with extracting afresh, over runs of image and
configuration changes and failing reads and writes, with the exact conditions under which
the two agree; `CacheStore` is the same done step by step in place, the sweep over all
hosts, and the configuration checks the sweep relies on.

**The panel.** `Checksums` and `Png` are the PNG encoder and a strict reader for its output,
and `CrcStandard` the definition of CRC-32 as a remainder of polynomials;
`Drawing` is the line rasteriser, the packing of the back buffer and the screensaver bounce.

**Shared state.** `State` is the bounded host map and log ring, `Text` the normalisation of
MAC addresses and what it and the other text operations mean, character by character.

## Assumptions

- A file does not change while it is being served. Short reads are arbitrary; a read fault
  ends the transfer (`Server`), and the composed system includes giving up at any moment.
- Receives, timeouts, send and receive faults and the 120 s deadline are whatever the
  environment chooses; nothing is assumed about the client in `SenderSpec` and `Server`.
- Text is bytes. Option keys are compared after lower-casing as far as that can make them
  equal to an ASCII word (ASCII capitals and the Kelvin sign); an OACK is decoded without
  the lossy replacement of invalid UTF-8.
- Integers wider than the code's are not needed: block numbers on the wire are reduced
  modulo 65536, parsed numbers are bounded by their width, seeks by 64 bits, checksums by 32.
- Without a cap the copy is made by a library routine, which is taken to read in the same
  chunks as the capped loop.
- The image libraries are taken as given: an image is a directory graph, the results of
  opening exact paths, and an ordered list of partitions. An image does not change during
  one synchronisation.

## What the proofs found

- Sixteen-bit block numbers are exact over in-order channels for files of any length. If
  datagrams may be reordered, what is acknowledged is held, and completion means the client
  has the file, exactly up to 65535 blocks: for any longer file an old acknowledgement can
  complete a transfer whose last block never arrived. The client's bytes stay a prefix of
  the file exactly up to 65536 blocks.
- The block-size and window clamps raise small requests as well as lowering large ones, so
  the server answers a `blksize` below 512 with 512, which RFC 2348 does not allow.
- The comment on the cache metadata calls its fields the full cache key
  (crates/bootycall-extractor/src/lib.rs:47-50). The code leaves out the size cap and
  truncates times to seconds, so a rewrite within one second, a lowered cap, and, for images
  that are both ISO and disk, a raised cap all go unnoticed. A cached result agrees with a
  fresh extraction exactly when it fits the present cap and the ISO attempt under that cap
  fails or yields it.
- A failed read of an ISO makes the code try the image as a disk, so for an image that is
  both, one failed read decides what is served until the image changes.
- If the metadata file cannot be opened for writing, the error is returned but the old
  metadata stays beside the new artefacts, and a later sync can serve them for the wrong
  image. A write that fails after truncating is harmless.
- A failed read of the served file is the one failure during a transfer that leaves the
  host's status as it was, and so does a file whose size cannot be read after it was opened.
- Go-back-N recovers from any loss while a timeout is left to spend. With the last one gone,
  it recovers exactly if block `base` has arrived, is on its way or is about to be sent.

## Model

| member | source | states |
|---|---|---|
| Network.EndToEndSafety | crates/bootycall-tftp/src/server.rs:240-404 | Over every run with loss and duplication, in order for any file length or in any order for at most 65535 blocks: the receiver's bytes are always a prefix of the file, everything the sender counts as acknowledged is held by the receiver, and the sender completes only when the receiver holds the whole file. |
| Limits.SafeExactlyWhenDecodable | crates/bootycall-tftp/src/server.rs:339-374 | The exact limit of 16-bit acknowledgements: over all runs what the sender counts as acknowledged is held by the receiver if and only if channels keep order or the file has at most 65535 blocks. |
| Limits.CompletesSafelyExactlyWhenDecodable | crates/bootycall-tftp/src/server.rs:360-364 | The exact limit of completion: over all runs the sender completes only when the receiver holds the whole file if and only if channels keep order or the file has at most 65535 blocks. |
| Limits.PrefixExactlyWhen | crates/bootycall-tftp/src/server.rs:254-269 | The exact limit of the data: over all runs the receiver's bytes are a prefix of the file if and only if channels keep order or the file has at most 65536 blocks, whatever the file holds. |
| Limits.StaleAckMisread | crates/bootycall-tftp/src/server.rs:339-350 | For every file and every block k past the 65535th, a run with reordering in which an old acknowledgement, of block k - 65536, is taken for k, which the receiver lacks; if k is the last block the sender reports completion. |
| Limits.StaleDataAccepted | crates/bootycall-tftp/src/server.rs:254-269 | For every file of more than 65536 blocks, a run with reordering after which the receiver holds more bytes than the file has. |
| Network.AcksDecodeExactly | crates/bootycall-tftp/src/server.rs:339-374 | At every reachable state of a decodable transfer an acknowledgement taken from the channel is read as exactly the block the receiver acknowledged, or ignored if that block is already acknowledged, and base moves to just past it; at most 32 blocks are in flight. |
| Network.AcksInTransit | crates/bootycall-tftp/src/server.rs:339-344 | Over in-order channels every acknowledgement in transit, when the sender is ready to read, is for a block in [base-1, next_to_send-1]. |
| Network.DataDecodesExactly | crates/bootycall-tftp/tests/tftp_tests.rs:684-738 | A DATA packet is accepted by a receiver comparing 16-bit numbers only if it is the block it expects, which then extends its bytes by exactly that block. |
| Network.RunKeepsSysInv | crates/bootycall-tftp/src/server.rs:240-404 | The joint invariant of sender, receiver and both channels holds after every run of the composed system; DATA in transit was sent when base b0 satisfied R <= b0 + window. |
| Network.SenderProjection | crates/bootycall-tftp/src/server.rs:273-404 | The sender inside any run of the composed system takes the steps of a legal run of the sender alone, on the very datagrams the channel delivered, and is in the state that run reaches. |
| Network.DataWasSent | crates/bootycall-tftp/src/server.rs:278-298 | The data channel never carries a datagram that the sender's run has not sent. |
| Schedules.UndisturbedRun | crates/bootycall-tftp/src/server.rs:278-298 | On every run with nothing lost, copied, late or abandoned, with acknowledgements sent when a window is full or at the end, in whatever order the rest happens: at each point the sender has transmitted exactly next_to_send - 1 times, and the run is within a window, has its one ACK on the way, or is finished. |
| Schedules.EachBlockOnce | crates/bootycall-tftp/src/server.rs:278-298 | Every such run transmits blocks 1, 2, 3, ... in order and never one it has sent before. |
| Schedules.LosslessTransfer | crates/bootycall-tftp/src/server.rs:273-404 | Every such run, however it has begun, can be continued to completion, and takes exactly 2 * blocks + 2 * ceil(blocks / window) actions to get there. |
| Schedules.NeverStuck | crates/bootycall-tftp/src/server.rs:273-404 | Such a run always has a next step until the transfer completes. |
| Schedules.LosslessCost | crates/bootycall-tftp/src/server.rs:278-298 | Whenever such a run completes, each block was transmitted exactly once, exactly ceil(blocks / window) acknowledgements were sent, the receiver holds the file and nothing is left in transit. |
| Recovery.RecoversExactly | crates/bootycall-tftp/src/server.rs:273-404 | Whatever has been lost, duplicated or delayed, over either kind of decodable channel: a transfer that still runs can be continued to completion if and only if fewer than four waits in a row were in vain, or exactly four were and block base has been received, is about to be sent again, or is on its way. |
| Recovery.AnyLossIsSurvived | crates/bootycall-tftp/src/server.rs:395-402 | As long as fewer than four waits in a row were in vain, any reachable state can be continued to one where the transfer is complete and the receiver holds the whole file. |
| Recovery.DoomedStays | crates/bootycall-tftp/src/server.rs:304-320 | A transfer that is past recovery never completes, whatever is done. |
| SenderSpec.SendsAtLeast | crates/bootycall-tftp/src/server.rs:278-298 | No completed transfer can have sent fewer DATA packets than there are blocks. |
| SenderSpec.PacketsAtLeast | crates/bootycall-tftp/src/server.rs:345-372 | No completed transfer can have received fewer than blocks / window packets. |
| SenderSpec.TransferIsBounded | crates/bootycall-tftp/src/server.rs:273-404 | Whatever packets, timeouts and errors arrive: at most 5 receives per block, at most window * (5 * blocks + 1) DATA sends, and at most one window of sends per advancing ACK or timeout plus the first. |
| SenderSpec.ReceivesBounded | crates/bootycall-tftp/src/server.rs:304-404 | Every receive is paid for by five per acknowledged block plus the retries spent. |
| SenderSpec.SendsBounded | crates/bootycall-tftp/src/server.rs:278-298 | Every DATA send is paid for by the first window, an advancing ACK or a timeout, so duplicate and stale ACKs cause none (no Sorcerer's Apprentice). |
| SenderSpec.AdvanceRestartsWindow | crates/bootycall-tftp/src/server.rs:345-372 | Only a packet moves base; when it does, retries reset and, unless the transfer is over, the next block sent is the new base; a packet that does not move it enables no transmission. |
| SenderSpec.RunKeepsInv | crates/bootycall-tftp/src/server.rs:244-298 | After every legal run the buffered keys are exactly the blocks read and not acknowledged, each with the file's bytes, and the read position is the end of the last block read. |
| SenderSpec.WindowFull | crates/bootycall-tftp/src/server.rs:278-298 | When the fill loop stops, next_to_send is min(base + window, blocks + 1) and the buffered keys are exactly [base, next_to_send). |
| SenderSpec.PayloadIsBlock | crates/bootycall-tftp/src/server.rs:284-296 | Every transmission or retransmission under number k carries exactly block k of the file. |
| SenderSpec.ReadsForward | crates/bootycall-tftp/src/server.rs:284-294 | The read position never goes back and moves only when the first unread block is sent, by exactly that block, so each byte is read at most once. |
| SenderSpec.BufferBounded | crates/bootycall-tftp/src/server.rs:244-247 | The buffered bytes are exactly the unacknowledged stretch read so far and never exceed window * blksize. |
| SenderSpec.AtMostOneMatch | crates/bootycall-tftp/src/server.rs:343-344 | Under the sender invariant at most one in-flight block has a given wire number. |
| SenderSpec.DecodeNearby | crates/bootycall-tftp/src/server.rs:343-344 | Searching the wire number of any block within 65536 of the window finds that block exactly when it is in flight. |
| SenderSpec.DecodeClosedForm | crates/bootycall-tftp/src/server.rs:343-344 | The search for block a's wire number yields base + (a - base) mod 65536 if that is in flight, and nothing otherwise. |
| SenderSpec.DecodeExact | crates/bootycall-tftp/src/server.rs:343-344 | A search reads block a correctly if and only if a is in flight or (a - base) mod 65536 lies beyond the window. |
| SenderSpec.FindInFlight | crates/bootycall-tftp/src/server.rs:343-344 | The result is the first in-flight block with that wire number, and none means there is none. |
| SenderSpec.SendKeepsInv | crates/bootycall-tftp/src/server.rs:278-298 | One turn of the fill loop keeps the window invariant, whether the block was buffered or freshly read. |
| SenderSpec.PacketKeepsInv | crates/bootycall-tftp/src/server.rs:323-391 | Handling any datagram keeps the window invariant. |
| Server.WindowedTransfer.constructor | crates/bootycall-tftp/src/server.rs:244-252 | A new transfer is coupled to the start of the state machine. |
| Server.WindowedTransfer.FetchBlock | crates/bootycall-tftp/src/server.rs:284-295 | For every schedule of short reads the payload fetched is the one the specification sends next, the updated fields are its successor state, and the read calls made, with the failure if one faults, are those the environment forces. |
| Server.WindowedTransfer.Fill | crates/bootycall-tftp/src/server.rs:278-298 | The in-place fill loop follows the course the environment forces until the window is full, or to that course's end at the first read or send that fails. |
| Server.WindowedTransfer.OnPacket | crates/bootycall-tftp/src/server.rs:323-391 | The in-place packet handler moves the fields exactly as the specification's packet step, and reports the phase exactly when that step ends the transfer. |
| Server.WindowedTransfer.OnTimeout | crates/bootycall-tftp/src/server.rs:395-402 | A timeout is the specification's timeout step: one retry spent, next_to_send back at base. |
| Server.WindowedTransfer.Run | crates/bootycall-tftp/src/server.rs:273-404 | The whole loop ends for every environment, at the end of the one course that environment forces: the outcome, every datagram sent, and how often receives, sends, clock and file reads were asked are those of that course, within the bounds on receives and sends; a time-out before the deadline comes after exactly five receives that did not move base. |
| Course.OneEnding | crates/bootycall-tftp/src/server.rs:273-404 | The environment (receives, send failures, deadline, grants of file reads) determines the whole transfer: two courses that have ended are the same. |
| Course.FollowsLegal | crates/bootycall-tftp/src/server.rs:273-404 | Every course is a legal run of the sender's state machine, so what is proved of those holds of it. |
| Course.CoursesAreLegalRuns | crates/bootycall-tftp/src/server.rs:273-404 | The courses that do not give up, over all environments, are exactly the legal runs of the state machine that do not. |
| Course.FailsForCause | crates/bootycall-tftp/src/server.rs:287-402 | The cause of each failure: a read failure if and only if a file read faulted, a client abort if and only if an error packet came, an I/O failure whenever a receive fails and otherwise only when a send does, a time-out only with the window sent and the retries spent or the deadline past; and nothing of the kind was met before. |
| Course.HeardIsScript | crates/bootycall-tftp/src/server.rs:321-323 | What a course hears is what the socket yields, in order and without gaps; only a failing receive, which ends it, is left out. |
| Course.CourseIsBounded | crates/bootycall-tftp/src/server.rs:273-404 | In every environment a transfer takes at most five receives per block, failing ones included, and sends at most a window per advancing ACK or timeout and one more. |
| Course.BudgetIsFive | crates/bootycall-tftp/src/server.rs:304-320 | A full window gives up for time exactly when five receives have come since base last moved, or since the start, or the deadline has passed; with fewer and in time it never does. |
| Course.TimesOutAfterFive | crates/bootycall-tftp/src/server.rs:304-320 | A transfer that has timed out before its deadline has had exactly five receives since base last moved or since the start. |
| Server.WindowedTransfer.Turn | crates/bootycall-tftp/src/server.rs:273-404 | One turn of the loop either reaches the end of the course or follows it to a state with base advanced or one retry spent. |
| Server.SendAndAwaitAck | crates/bootycall-tftp/src/server.rs:463-518 | At most five tries, one copy of the packet and one receive each; only noise is retried; every send worked and the deadline had not passed until the end; acknowledged, client error, I/O error and giving up each have their own cause. |
| Server.OneOutcome | crates/bootycall-tftp/src/server.rs:463-518 | The environment determines the outcome and the number of tries. |
| Server.GivesUpAfterFive | crates/bootycall-tftp/src/server.rs:463-518 | At most five copies go out; the wait is given up with five exactly when nothing but noise answered all five, and with fewer only because the deadline passed. |
| BlockStream.FileReader.Read | crates/bootycall-tftp/src/server.rs:556-560 | A reader that may return short reads: as many of the next bytes as the environment grants, 0 exactly at end of file or for an empty buffer. |
| BlockStream.AnyShortRead | crates/bootycall-tftp/src/server.rs:556-560 | A successful read is never empty while there is room, and may stop at any count. |
| BlockStream.ReadFill | crates/bootycall-tftp/src/server.rs:553-563 | For every schedule of short reads the buffer gets the next bytes of the file, as many as fit or remain, the end flag is set exactly when the buffer was not filled, and it fails exactly when one of its read calls faults. |
| BlockStream.ReadYieldsBlock | crates/bootycall-tftp/src/server.rs:284-294 | A read at the end of block k-1 yields block k, which is shorter than the block size exactly when k is the last block. |
| BlockStream.BlockCountIs | crates/bootycall-tftp/src/server.rs:278-298 | A file of `size` bytes has size / blksize + 1 blocks. |
| BlockStream.EndOfIs | crates/bootycall-tftp/src/server.rs:278-298 | Blocks 1..k cover exactly the first min(k * blksize, size) bytes, so block k is the file from (k - 1) * blksize to min(k * blksize, size). |
| BlockStream.PayloadsAreTheFile | crates/bootycall-tftp/src/server.rs:278-298 | The payloads of blocks 1..k are the first min(k * blksize, size) bytes of the file, and all of them together are the file. |
| BlockStream.LastBlockEmptyIffMultiple | crates/bootycall-tftp/src/server.rs:287-291 | The last block is empty exactly when the size is a multiple of the block size, the empty file included. |
| Handler.HandleTransfer | crates/bootycall-tftp/src/server.rs:96-431 | A whole request: a refusal sends its one error packet if the socket lets it, a file whose size cannot be read ends it silently, failed negotiation sends only OACK copies for its own cause, and otherwise, once the client confirms, the transfer follows its one course to the end; everything sent and received is accounted for and the host is marked by the ending. |
| Handler.OneAccount | crates/bootycall-tftp/src/server.rs:96-431 | The environment determines the whole of a request: its ending, everything sent, and every use of socket, clock and file. |
| Handler.MarkTells | crates/bootycall-tftp/src/server.rs:105-415 | A host marked completed has had every block acknowledged; it is left unmarked if and only if the mode was refused, the file could not be opened or its size not be read, or a read of it failed; any failed transfer has met the cause its reason names. |
| Handler.RequestIsBounded | crates/bootycall-tftp/src/server.rs:96-431 | In every environment a request takes at most five receives and five more for every block of the file. |
| Handler.CompletedMeansDelivered | crates/bootycall-tftp/src/server.rs:406-431 | If the request's transfer travelled over the channels of a composed run and ended as completed, the client there holds the whole file. |
| Handler.EveryRequestCanSucceed | crates/bootycall-tftp/src/server.rs:96-431 | For every octet request, with or without options, and every file there is an environment and a loss-free run of the composed system in which the options are confirmed, the transfer completes and the client holds the file. |
| Handler.RequestIsServedSafely | crates/bootycall-tftp/src/server.rs:96-431 | From a parsed request to its last byte: the client holds a prefix of the file throughout and the whole file once the server counts the transfer complete, with as many bytes as the tsize it was told. |
| Handler.RunsAsAgreed | crates/bootycall-tftp/src/server.rs:175-273 | A transfer starts only once the client has acknowledged block 0 of the option packet, if there is one, after at most five copies of it; and it runs on the file with the block size and window the client reads out of that packet. |
| Handler.AskedExactly | crates/bootycall-tftp/src/server.rs:190-238 | Options are acknowledged exactly when one of the four was asked for and understood. |
| Handler.IsOctetExactly | crates/bootycall-tftp/src/server.rs:110-118 | The mode served is octet, in any mixture of cases, and no other. |
| Handler.RefusalsSay | crates/bootycall-tftp/src/server.rs:115-137 | The code and text a client decodes from each refusal: 4 for the mode, 1 for a missing file, 2 for a forbidden one, 0 for any other failure to open. |
| Handler.RefusedRequests | crates/bootycall-tftp/src/server.rs:105-145 | Which requests are refused, and that such a request sends at most the one error packet with its code and text; only an octet request for a file that opens and has a size goes on. |
| Wire.WireIsRemainder | crates/bootycall-tftp/src/server.rs:254-255 | The wire number of a block is its number modulo 65536. |
| Wire.MakeDataPacket | crates/bootycall-tftp/src/wire.rs:47-53 | Decodes back to its block number and payload, and is neither an ACK nor an error. |
| Wire.MakeAckPacket | crates/bootycall-tftp/src/wire.rs:56-61 | Decodes back to its block number, and is neither DATA nor an error. |
| Wire.MakeErrorPacket | crates/bootycall-tftp/src/wire.rs:24-31 | Is recognised as an error and as nothing else. |
| Wire.PacketBytes | crates/bootycall-tftp/src/wire.rs:23-61 | The bytes of DATA, ACK and ERROR packets: opcodes 3, 4 and 5, then the number, high byte first, then the payload or the text and its NUL. |
| Wire.PacketsRead | crates/bootycall-tftp/src/wire.rs:81-92 | Any bytes at all are read as the acknowledgement of n exactly when they begin 0, 4 and the two bytes of n, and as an error exactly when they begin 0, 5. |
| Wire.ErrorRoundTrip | crates/bootycall-tftp/src/wire.rs:94-106 | An error packet decodes to its code and message. |
| Wire.OackBytes | crates/bootycall-tftp/src/wire.rs:33-44 | The bytes of an option acknowledgement: opcode 6, then every name and value in order, each followed by a NUL. |
| Wire.FieldsOfTerminated | crates/bootycall-tftp/src/wire.rs:122-131 | Splitting at NULs undoes joining with NULs for every list of NUL-free fields. |
| Wire.FieldsExactly | crates/bootycall-tftp/src/wire.rs:122-131 | Every run of bytes splits into exactly the NUL-free fields that, joined with NULs and followed by some unterminated tail, give it. |
| Wire.SplitFields | crates/bootycall-tftp/src/wire.rs:122-131 | The splitting loop computes the fields of a run, dropping an unterminated tail. |
| Wire.OackRoundTrip | crates/bootycall-tftp/src/wire.rs:34-44 | An option acknowledgement decodes to exactly the options it was built from, for NUL-free text. |
| Wire.BuildOackPacket | crates/bootycall-tftp/src/wire.rs:34-44 | The building loop yields the packet of the specification. |
| Wire.ReadOackPacket | crates/bootycall-tftp/src/wire.rs:118-139 | The parsing loop yields the options of the specification, two fields at a time, an odd one dropped. |
| Request.RrqRoundTrip | crates/bootycall-tftp/src/wire.rs:65-79 | For NUL-free text a request parses back to its file name, mode and last valid option values; it is refused if and only if some text is not UTF-8. |
| Request.EveryRequest | crates/bootycall-tftp/src/server.rs:27-94 | Nothing else is a request: every packet accepted is a request built from NUL-free text and a surplus, an unterminated tail, perhaps after one field too many to make a pair. |
| Request.SurplusIgnored | crates/bootycall-tftp/src/server.rs:36-61 | Such a surplus makes no difference to what is parsed, even if it is not text. |
| Request.ReadRrq | crates/bootycall-tftp/src/server.rs:27-94 | The parsing loop computes the specified request for every packet, malformed ones included. |
| Request.LastValidWins | crates/bootycall-tftp/src/server.rs:58-84 | The value of an option is that of its last valid occurrence; invalid values and other keys are skipped. |
| Request.DecimalRoundTrip | crates/bootycall-tftp/src/server.rs:64-80 | Writing a number in decimal and parsing it into a limited width gives it back exactly when it fits. |
| Request.ParseUnsigned | crates/bootycall-tftp/src/server.rs:64-80 | Parsing an unsigned number never yields a value beyond its width. |
| Request.NumberExactly | crates/bootycall-tftp/src/server.rs:64-80 | Exactly these parse as n: its decimal numeral with any zeros in front, with or without a plus sign, if n fits the width. |
| Request.DecimalBytes | crates/bootycall-tftp/src/server.rs:156-172 | Numbers are written digit by digit, the most significant first, without leading zeros. |
| Request.RrqBytes | crates/bootycall-tftp/src/wire.rs:63-79 | The bytes of a request: opcode 1, file name, mode, and each option's name and value, each followed by a NUL. |
| Request.NamesSpelt | crates/bootycall-tftp/src/server.rs:60-82 | An option is taken for blksize, timeout, tsize or windowsize exactly when its name spells that word, letter by letter, in any mixture of cases. |
| Request.RrqMeans | crates/bootycall-tftp/src/server.rs:27-94 | What a well-formed request is taken to ask: its file and mode, the last number within the width given under each of the three names that take one, and the size exactly if its name occurs; names in any case. |
| Utf8.ValidUtf8Exactly | crates/bootycall-tftp/src/server.rs:50-61 | Text is accepted exactly when it is the UTF-8 encoding of a sequence of Unicode scalar values. |
| Request.Negotiate | crates/bootycall-tftp/src/server.rs:147-173 | The negotiation code computes the acknowledged options and the driving values of the specification. |
| Request.ClientAgrees | crates/bootycall-tftp/src/server.rs:147-173 | For every request and file size the client decodes from the OACK packet exactly the values that drive the loop, only requested options appear, and its defaults for the rest are the server's. |
| Request.NegotiatedWithinBounds | crates/bootycall-tftp/src/server.rs:571-589 | Negotiated values lie in [512, 1432], [1, 10] and [1, 32], so the transfer is well formed whatever was asked. |
| Request.GrantedAsAsked | crates/bootycall-tftp/src/server.rs:147-173 | Every request: a blksize of 512 to 1432 is granted as asked, below gives 512, above 1432, none 512; likewise timeout 1 to 10, none 3, and windowsize 1 to 32, none 1. |
| Request.OackSays | crates/bootycall-tftp/src/server.rs:147-173 | The option acknowledgement byte for byte: blksize, timeout, tsize and windowsize, those asked for and in this order, with the negotiated numbers in decimal. |
| Request.RaisedExactlyBelowMinimum | crates/bootycall-tftp/src/server.rs:153-173 | The server's block and window sizes stay at or below the client's exactly when those were at least 512 and 1; below, the clamp raises them. |
| Cache.CacheAgrees | crates/bootycall-extractor/src/lib.rs:188-339 | Over any run of image and configuration changes that meets the stated conditions, a sync succeeds exactly when a fresh extraction would, leaves its artefacts, fails with the same error otherwise, and leaves no artefacts or metadata after a failed extraction. |
| Cache.OkSyncIsFresh | crates/bootycall-extractor/src/lib.rs:188-339 | After any such run a sync that may meet failing disk reads and an interrupted metadata write leaves exactly the fresh artefacts whenever it succeeds, and otherwise, once the image was examined, nothing a later sync would take for complete. |
| Cache.CacheAgreesExactly | crates/bootycall-extractor/src/lib.rs:188-339 | Over any run in which caps change and reads inside images fail at will, a sync agrees with a fresh extraction if and only if it is a miss, or the cached artefacts fit the present cap and the ISO attempt under that cap fails or yields them. |
| Cache.HoldsLastExtraction | crates/bootycall-extractor/src/lib.rs:188-339 | Over every run at all, rewritten images, failing reads and stuck metadata included, a host's directory holds exactly what the last extraction for its MAC yielded, or nothing if that failed. |
| Cache.AgreesExactlyOverAnyRun | crates/bootycall-extractor/src/lib.rs:188-339 | Corollary: over every run at all a sync agrees with a fresh extraction if and only if it is a miss, or extracting now gives what the last extraction gave. |
| Cache.SoundExactlyWhenSafe | crates/bootycall-extractor/src/lib.rs:225-251 | A directory holds what extracting its keyed image gives if and only if every later sync of any host and any image that key determines agrees with a fresh extraction. |
| Cache.StuckMetadataExactly | crates/bootycall-extractor/src/lib.rs:300-310 | When the metadata file cannot be opened after an extraction, the directory stays sound if and only if there was no metadata to parse or the image it names gives the new artefacts too. |
| Cache.RewriteNoticedExactly | crates/bootycall-extractor/src/lib.rs:213-234 | When an image changes between two syncs of a host, the second agrees with a fresh extraction if and only if the whole-second time or the size changed, or the extraction is the same. |
| Cache.HitExactly | crates/bootycall-extractor/src/lib.rs:225-234 | The cache counts as valid exactly when both artefacts are there and the metadata names the path, the size, both overrides and the whole second of the time. |
| Cache.SyncTells | crates/bootycall-extractor/src/lib.rs:206-264 | A missing image alone gives ImageNotFound, any other trouble examining it an I/O error, and the directory stays as it was; otherwise the old metadata file is gone, success means the next sync would find the cache valid, and failure leaves nothing a later sync would take for complete. |
| Cache.SecondSyncIsIdle | crates/bootycall-extractor/src/lib.rs:225-251 | After a successful sync the next one, with nothing changed, succeeds and changes nothing, whatever the cap and whatever reads and writes would do. |
| Cache.SyncAgrees | crates/bootycall-extractor/src/lib.rs:225-338 | A sync of a sound directory cannot be told from a fresh extraction. |
| Cache.RunKeepsInv | crates/bootycall-extractor/src/lib.rs:188-339 | After every trustworthy run each complete directory holds what extracting its keyed image gives. |
| Cache.SameSecondServesOld | crates/bootycall-extractor/src/lib.rs:213-234 | A run in which an image rewritten within the same second with the same size is not noticed and old artefacts are served. |
| Cache.LoweredCapServesOld | crates/bootycall-extractor/src/lib.rs:47-63 | A run in which artefacts above a lowered size cap are still served, because the cap is not part of the key. |
| Cache.RaisedCapServesDisk | crates/bootycall-extractor/src/lib.rs:47-63 | A run in which an image that is both ISO and disk was first synchronised under a cap its ISO files exceed, and its disk's artefacts are still served when a raised cap would extract the ISO's. |
| Cache.FaultedIsoServesDisk | crates/bootycall-extractor/src/lib.rs:270-298 | A run in which the first read of the ISO kernel of such an image fails once, no other read ever does, and its disk's artefacts are served from then on. |
| Cache.StuckMetadataServesWrong | crates/bootycall-extractor/src/lib.rs:300-310 | A run in which a metadata file that could not be opened makes later syncs serve another image's artefacts. |
| CacheStore.Store.SyncHost | crates/bootycall-extractor/src/lib.rs:188-339 | The in-place synchronisation, for every grant of reads and every outcome of the metadata write, gives the result and directory of the specification and touches no other host's directory. |
| CacheStore.Store.SyncAll | crates/bootycall-extractor/src/lib.rs:130-167 | For any host list, any grants of reads and any outcomes of metadata writes, the sweep leaves every directory as the same syncs one after another do, and its summary has exactly their results. |
| CacheStore.SweepIsEachAlone | crates/bootycall-extractor/src/lib.rs:130-167 | With distinct MACs each directory after the sweep is as syncing that host alone would have left it, and other directories are untouched. |
| CacheStore.SummaryTotals | crates/bootycall-extractor/src/lib.rs:108-112 | Succeeded plus failed is the number of hosts. |
| CacheStore.SweepServesEveryHost | crates/bootycall-extractor/src/lib.rs:130-167 | After a sweep of any accepted configuration that follows a trustworthy history, every host at the same time has what a fresh extraction of its own image leaves, and the hosts reported as failed are exactly those whose fresh extraction fails, with its error. |
| CacheStore.SucceededHostsHoldTheirOwn | crates/bootycall-extractor/src/lib.rs:130-167 | The same for a sweep that meets failing disk reads and interrupted metadata writes: every host reported as succeeded, all at the same time, holds exactly the fresh artefacts of its own image. |
| CacheStore.Store.ExtractFromIso | crates/bootycall-extractor/src/iso.rs:6-56 | Writes both artefacts or fails with the specified error, or with an I/O error exactly when a read it makes fails, touching only the host's two artefact files. |
| CacheStore.Store.ExtractFromDisk | crates/bootycall-extractor/src/disk.rs:104-209 | The partition loop writes both artefacts or fails with the specified error, or with an I/O error exactly when a read it makes fails, touching only the host's two artefact files. |
| CacheStore.Store.ExtractTo | crates/bootycall-extractor/src/lib.rs:270-298 | ISO first and, if that fails for any reason, a failed read included, GPT/FAT; result and artefacts are those of the specification for the reads these schedules let through. |
| CacheStore.ValidateHosts | crates/bootycall-core/src/config.rs:170-195 | Accepts exactly the host lists with well-formed distinct MACs and non-blank distinct names; otherwise names the first host at fault and why. |
| Extraction.CopyCapped | crates/bootycall-extractor/src/lib.rs:18-45 | For every schedule of short reads and faults: an I/O error exactly when one of the read calls it makes faults, and otherwise a verdict that depends only on size and cap; the output is always a prefix of the source within the cap, and all of it on success. |
| Extraction.LastCallDecides | crates/bootycall-extractor/src/lib.rs:29-41 | Only the last read call a copy makes can have faulted, and it has exactly when the copy failed for it; a fault beyond the cap is never met. |
| Extraction.SteadyReads | crates/bootycall-extractor/src/lib.rs:270-298 | Where no read faults both attempts get through. |
| Extraction.FullReads | crates/bootycall-extractor/src/lib.rs:29-41 | Where reads bring all there is room for, a capped copy makes one call for each 64 KiB begun and one that finds the end. |
| Extraction.FirstPartitionDecides | crates/bootycall-extractor/src/disk.rs:119-208 | The first partition whose kernel lookup finds something or fails alone decides the result; without one it is KernelNotFound. |
| Extraction.ExtractRespectsCap | crates/bootycall-extractor/src/lib.rs:13-17 | Nothing larger than the cap is ever extracted. |
| Extraction.UnderAnotherCap | crates/bootycall-extractor/src/lib.rs:270-298 | What one cap extracts another extracts if and only if it fits and the ISO attempt under the other cap fails or yields it too. |
| Extraction.UnderLoweredCap | crates/bootycall-extractor/src/lib.rs:18-45 | Under a lowered cap the same is extracted if and only if it still fits. |
| Detection.KernelNames | crates/bootycall-extractor/src/lib.rs:65-72 | A name is a kernel's exactly when it equals vmlinuz, bzimage, kernel or image, character by character and ignoring ASCII case. |
| Detection.InitrdNames | crates/bootycall-extractor/src/lib.rs:74-79 | A name is an initrd's exactly when initrd or initramfs occurs somewhere in it, ignoring ASCII case. |
| Detection.LookupAnswers | crates/bootycall-extractor/src/iso.rs:71-109 | The search's answer is the first file in pre-order, at most 64 levels down, that goes by such a name; a fault if and only if an unreadable entry comes before any; nothing if and only if there is neither. |
| Detection.IsoExtraction | crates/bootycall-extractor/src/iso.rs:6-56 | Every answer of the ISO attempt, if and only if its cause: both files, each at its override path or the first of its name in pre-order and within the cap; or the kernel missing, the initrd missing, something unreadable, or a file above the cap. |
| Detection.PartitionExtraction | crates/bootycall-extractor/src/disk.rs:138-208 | Every answer of the partition that decides, if and only if its cause: both files within the cap; a kernel within the cap but no initrd (InitrdNotFound); something unreadable; or a file above the cap, the kernel before the initrd is looked for. |
| Detection.DiskExtraction | crates/bootycall-extractor/src/disk.rs:118-209 | The first used and readable FAT partition with a kernel, or something unreadable before one, answers for the disk; KernelNotFound exactly when there is none. |
| Detection.ImageExtraction | crates/bootycall-extractor/src/lib.rs:270-298 | What the ISO attempt gives is what is extracted; only if it gives nothing is the disk looked at, and then it alone answers. |
| Walker.WalkFindsFirst | crates/bootycall-extractor/src/iso.rs:71-109 | On any directory graph, cyclic ones included, nothing is found if and only if no chain of at most 64 entries leads to a matching file or unreadable entry; otherwise the result is that of the first such chain in pre-order. |
| Walker.WalkFirst | crates/bootycall-extractor/src/disk.rs:211-252 | The same from any directory at any depth, with the chain as witness. |
| Walker.DeepWalk | crates/bootycall-extractor/src/iso.rs:58-69 | The depth bound is exact: a kernel below fewer than 64 nested directories is found, one below more is not. |
| Slice.PartitionSlice.DoRead | crates/bootycall-extractor/src/disk.rs:26-38 | A read replies and moves as a stand-alone cursor over the partition would. |
| Slice.PartitionSlice.DoWrite | crates/bootycall-extractor/src/disk.rs:83-97 | A write replies, moves and changes bytes as a stand-alone cursor would, and changes no byte outside the partition. |
| Slice.PartitionSlice.DoSeek | crates/bootycall-extractor/src/disk.rs:40-81 | A seek succeeds exactly when base and target fit a signed 64-bit integer and the target is not negative; a failed seek leaves the position. |
| Slice.PartitionSlice.Perform | crates/bootycall-extractor/src/disk.rs:26-102 | Any sequence of seeks, short reads and short writes gets a stand-alone cursor's replies and contents and never changes a byte outside the partition. |
| Slice.OverwriteWindow | crates/bootycall-extractor/src/disk.rs:83-97 | Overwriting through the window's offset is overwriting the window's own bytes and nothing else. |
| Slice.CursorKeeps | crates/bootycall-extractor/src/disk.rs:26-102 | The reference cursor keeps its length, changes data only by writing, and answers every operation. |
| Slice.WriteThenRead | crates/bootycall-extractor/src/disk.rs:26-102 | After a write and any reads and seeks, seeking back and reading gives a non-empty prefix of what was written, whatever each is granted. |
| Slice.ReadAdvances | crates/bootycall-extractor/src/disk.rs:26-38 | A read returns the bytes at the position and moves it by as many, none only if none are wanted or left; a fault changes nothing. |
| Slice.WriteReplaces | crates/bootycall-extractor/src/disk.rs:83-97 | A write replaces exactly the bytes it reports and moves past, and is refused exactly at or past the end. |
| Slice.SeekLands | crates/bootycall-extractor/src/disk.rs:40-81 | A seek counts from 0, the partition's length or the position, and succeeds exactly when that base and the target are below 2^63 and the target is not negative. |
| Slice.ReadsConcatenate | crates/bootycall-extractor/src/disk.rs:26-38 | Whatever they are granted, consecutive reads together return the stretch of data the position moved over. |
| Slice.ReadsToTheEnd | crates/bootycall-extractor/src/disk.rs:26-38 | A read that wants bytes and gets none has reached the end: the reads before it together returned all the rest of the data. |
| Png.PngRoundTrip | crates/bootycall-oled/src/png.rs:9-33 | A strict reader recovers (width, height, gray) from the encoding if and only if the height is positive and width, height and compressed length, a function of width and height, fit 32 bits. |
| Png.CompressedLengthIs | crates/bootycall-oled/src/png.rs:36-51 | The compressed length is 6 + n + 5 * ceil(n / 65535) with n = width * height + height. |
| Png.ZlibReadsBack | crates/bootycall-oled/src/png.rs:36-51 | The zlib stream inflates back to its data exactly when there is any; for empty data no block is emitted and the stream is invalid. |
| Png.StoredReadsBack | crates/bootycall-oled/src/png.rs:39-48 | Stored blocks, BFINAL on exactly the last, with LEN and its complement, read back to the data for any number of 65535-byte blocks. |
| Png.StoredLength | crates/bootycall-oled/src/png.rs:39-48 | The stored data takes five bytes more per block of up to 65535. |
| Png.ChunkReadsBack | crates/bootycall-oled/src/png.rs:53-61 | A chunk reads back whatever follows it if its length fits 32 bits; otherwise its length is read modulo 2^32. |
| Png.ScanlinesReadBack | crates/bootycall-oled/src/png.rs:23-28 | Scanlines with filter byte 0 read back to the pixels, one byte more per row. |
| Png.PixelsReadBack | crates/bootycall-oled/src/png.rs:30-31 | The pixel chunks read back to the image exactly when the compressed length fits its field. |
| Png.TruncatedLengthRefused | crates/bootycall-oled/src/png.rs:53-55 | When the length field overflows the reader refuses the file. |
| Png.DamagedChunkRefused | crates/bootycall-oled/src/png.rs:53-61 | A chunk altered within any four consecutive bytes of its type and data is refused. |
| Png.EncodeGrayPng | crates/bootycall-oled/src/png.rs:9-33 | The encoder as it runs produces the specified bytes. |
| Png.WriteZlib | crates/bootycall-oled/src/png.rs:36-51 | The block loop produces the specified zlib stream. |
| Png.WriteChunk | crates/bootycall-oled/src/png.rs:53-61 | Appends exactly the specified chunk. |
| Checksums.BurstDetected | crates/bootycall-oled/src/png.rs:63-73 | Inputs of equal length that differ, but only within four consecutive bytes, never have the same CRC-32. |
| Checksums.BitInjective | crates/bootycall-oled/src/png.rs:68-69 | The per-bit step loses nothing. |
| Checksums.BitLinear | crates/bootycall-oled/src/png.rs:68-69 | The per-bit step shifts even words straight through an exclusive or. |
| Checksums.AbsorbWord | crates/bootycall-oled/src/png.rs:65-71 | Absorbing four bytes is 32 steps on the register with their little-endian word added. |
| Checksums.RegisterInjective | crates/bootycall-oled/src/png.rs:65-71 | Absorbing equal data keeps different registers different. |
| CrcStandard.CrcIsTheStandard | crates/bootycall-oled/src/png.rs:63-73 | For all data the checksum is CRC-32: its bits are the complement of what is left by dividing the data's bits, low bit first, the first 32 complemented and 32 zeros appended, by x^32+x^26+x^23+x^22+x^16+x^12+x^11+x^10+x^8+x^7+x^5+x^4+x^2+x+1 over the field of two elements; and of nothing else. |
| CrcStandard.RemainderExactly | crates/bootycall-oled/src/png.rs:65-71 | Long division finds what the division leaves, and it is unique. |
| CrcStandard.RegisterDivides | crates/bootycall-oled/src/png.rs:65-71 | From any register, absorbing data is dividing what is pending: the register after it is the remainder. |
| CrcStandard.PolyBits | crates/bootycall-oled/src/png.rs:69-69 | Bit i of the program's constant is the coefficient of x^(31-i) of the generator. |
| Checksums.ComputeCrc32 | crates/bootycall-oled/src/png.rs:63-73 | The nested loops compute the specified CRC. |
| Checksums.ComputeAdler32 | crates/bootycall-oled/src/png.rs:75-82 | The reducing loop computes the closed form, with no intermediate value reaching 2^32, for data of any length. |
| Checksums.WeightedClosedForm | crates/bootycall-oled/src/png.rs:75-82 | Adler's second sum counts byte i of n exactly n - i times. |
| Checksums.AdlerIs | crates/bootycall-oled/src/png.rs:75-82 | The low half of the checksum is one more than the sum of the bytes, the high half the sum of byte i of n times n - i and n, each modulo 65521. |
| Checksums.ValueCounts | crates/bootycall-oled/src/png.rs:77-78 | The number a byte's bits stand for is 0 for the zero byte and one more for each next byte. |
| Drawing.Framebuffer.DrawLine | crates/bootycall-oled/src/renderer.rs:53-82 | The loop visits exactly the closed-form points of the line in order, terminates, and changes exactly those that fall inside the panel. |
| Drawing.Framebuffer.SetPixel | crates/bootycall-oled/src/framebuffer.rs:112-116 | Changes the one addressed pixel, and nothing when it is outside the panel. |
| Drawing.LineEnds | crates/bootycall-oled/src/renderer.rs:53-82 | The line has max(|dx|, |dy|) + 1 points, from one endpoint to the other. |
| Drawing.LineIsConnected | crates/bootycall-oled/src/renderer.rs:72-80 | Consecutive points are 8-neighbours and never go backwards. |
| Drawing.LineWithinHalfPixel | crates/bootycall-oled/src/renderer.rs:53-82 | Every point is within half a pixel of the ideal line, and where that passes midway between two pixels it is the one further from the start. |
| Drawing.ErrorStaysSmall | crates/bootycall-oled/src/renderer.rs:72-80 | The two tests keep the error within half a pixel on whichever side is longer. |
| Drawing.ExitExactlyAtEnd | crates/bootycall-oled/src/renderer.rs:69-71 | The exit test holds at the last point and at no earlier one. |
| Drawing.PackBuffer | crates/bootycall-oled/src/framebuffer.rs:176-192 | Two bytes per pixel, low byte of the palette colour first, in reverse buffer order exactly for rotation 0. |
| Drawing.PanelShows | crates/bootycall-oled/src/framebuffer.rs:112-192 | What the 160 by 60 panel is sent for a frame: row by row, low byte first, pixel (x, y) is the palette colour of frame pixel (159-x, 59-y) with rotation 0 and of (x, y) otherwise. |
| Drawing.RotationIsHalfTurn | crates/bootycall-oled/src/framebuffer.rs:176-184 | With rotation 0, packed pixel (x, y) is source pixel (w-1-x, h-1-y), for any panel size. |
| Drawing.TurnCancels | crates/bootycall-oled/src/framebuffer.rs:173-175 | Packing the reversed buffer with rotation 0 is packing the buffer with rotation 180. |
| Drawing.BounceIsAWave | crates/bootycall-oled/src/lib.rs:331-359 | From its start position each axis of the bounce follows a triangle wave of period 2 * (max - min) and never leaves the box. |
| State.FieldIsLastGiven | crates/bootycall-core/src/state.rs:66-109 | Over every run an entry's optional field is the last value an update gave it since the entry was created, and empty if none did. |
| State.LastUpdateRules | crates/bootycall-core/src/state.rs:93-96 | Over every run a host held has the status and the time of the last update for its MAC, none having come after it. |
| State.HeldExactly | crates/bootycall-core/src/state.rs:77-161 | Which hosts are held after an operation: a new one while fewer than 4096 are held, and all that were except those a clean finds idle for its limit, counted in nanoseconds. |
| State.RecentExactly | crates/bootycall-core/src/state.rs:154-160 | A clean keeps a host exactly when less than the limit, times 10^9 nanoseconds, has passed since it was last seen. |
| State.HostsStayBounded | crates/bootycall-core/src/state.rs:66-109 | Over every run at most 4096 hosts are held, keys are normalised, and each names its own entry. |
| State.RingHoldsNewest | crates/bootycall-core/src/state.rs:132-144 | Over every run the log is exactly the newest 200 events, oldest first, each with its time, level, message and normalised MAC. |
| State.StateStore.UpdateHostStatus | crates/bootycall-core/src/state.rs:66-109 | The in-place update, with its silent drop of new hosts at the ceiling, is the specified step. |
| State.StateStore.Record | crates/bootycall-core/src/state.rs:132-144 | Appending and evicting from the front leaves the specified ring. |
| State.StateStore.CleanStaleHosts | crates/bootycall-core/src/state.rs:151-161 | Keeps exactly the hosts seen recently, or last seen in the future, as specified. |
| State.StateStore.Perform | crates/bootycall-core/src/state.rs:58-162 | Any interleaving of operations reaches the specified state. |
| State.StateStore.GetHost | crates/bootycall-core/src/state.rs:111-115 | However a MAC is spelt, the entry found is the one for its normalised form, and names it. |
| Text.NormalizeIdempotent | crates/bootycall-core/src/mac.rs:13-15 | Normalising a MAC twice is normalising it once. |
| Text.SameMacExactly | crates/bootycall-core/src/mac.rs:10-15 | Two spellings normalise to the same MAC exactly when, without the white space around them, they agree but for ASCII case and hyphens standing for colons. |
| Text.NormalForm | crates/bootycall-core/src/mac.rs:3-15 | A normalised MAC has no capital, no hyphen and no white space around it. |
| Text.TrimIsMiddle | crates/bootycall-core/src/mac.rs:14-14 | Trimming takes off exactly the white space at both ends. |
| Text.SpacesAre | crates/bootycall-core/src/mac.rs:14-14 | White space is exactly the 25 characters Unicode calls so. |
| Text.ValidMacExactly | crates/bootycall-core/src/mac.rs:17-58 | The valid MACs are exactly the canonical forms of six-byte hardware addresses. |
| Text.BlankIsTrimmedAway | crates/bootycall-core/src/config.rs:186-188 | A host name counts as empty exactly when trimming leaves nothing of it. |

## Left out

- Sockets, task scheduling, the wall clock and log output: their effects appear as choices of the environment.
- The TFTP listener, its limit on concurrent transfers, path resolution and per-host bootloader overrides.
- The DHCP server, HTTP handlers, iPXE templates, dashboard, configuration watching and YAML/JSON parsing; metadata either parses to its key or does not.
- The internals of the ISO 9660, FAT and GPT libraries, and the opening of image files.
- Crashes in the middle of an extraction, and failing removals after a failed extraction.
- Legacy `metadata.txt` beyond its removal, and the creation of the cache directory itself.
- Text rendering, metrics, GPIO, LEDs, brightness tables and the mode logic of the render loop; the bounce is proved for boxes with room to move.
- Overflow of 64-bit block numbers, which no file of fewer than 2^64 bytes reaches, and of machine words in the line rasteriser.
- Validation of socket addresses, bootloader names, tokens and limits: flat checks of single fields.
- Slice.PartitionSlice.constructor: requires the partition to lie inside the device, which a damaged partition table need not respect.
- Cache.CacheAgrees: assumes contents determined by path, whole-second time and size, an unchanging cap, no failed ISO read and a metadata file that can be opened, because without any one of them it is false, as SameSecondServesOld, LoweredCapServesOld, RaisedCapServesDisk, FaultedIsoServesDisk and StuckMetadataServesWrong show; RewriteNoticedExactly, CacheAgreesExactly and StuckMetadataExactly say exactly when it holds without them.
