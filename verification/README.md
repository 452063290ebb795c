# A verified model of mhwallet

mhwallet talks to a Ledger device over USB HID. A command (an APDU) is cut into 64-byte frames, the
frames of the response are put together again, and a wallet object opens the device, retries and
decodes the results. Below that lies a HID layer with a reader thread, a queue of input reports, a
report-descriptor walk and a device enumeration. This project models these parts in Dafny 4.11 and
proves what they keep, over all inputs, all device behaviours and all interleavings.
`dafny verify dfyconfig.toml` checks all of it.

## How the model is laid out

| file | models |
|---|---|
| Bytes.dfy | wire integers and the toolbox byte buffers |
| HidppDevice.dfy | hidpp_device over open HID handles |
| FrameIo.dfy | APDU serialisation and outgoing frames |
| FrameIoApdu.dfy | incoming frames, the read loop and the exchange |
| ReadCounters.dfy | what the three counters say under every device behaviour |
| Reassembly.dfy | which responses are put together correctly |
| FailedReads.dfy | single reads byte by byte, and responses with failed reads in between |
| WalletState.dfy | m_valid and the device handle, over whole runs |
| AppList.dfy | the parser of the list of apps |
| Commands.dfy | the commands and their replies, end to end |
| AppListFit.dfy | which lists of apps come through |
| RetryLoop.dfy | the retry loop, and when it ends |
| Answers.dfy | what the commands return through the retry loop |
| NanosWallet.dfy | the wallet class: opening and closing, exchange, commands |
| ReportQueue.dfy | the linked list of input reports |
| LibusbProtocol.dfy | the threads of the libusb back end |
| LibusbProgress.dfy | what comes about there: opening, transfers, reads |
| MacProtocol.dfy | the threads of the mac back end |
| MacProgress.dfy | what comes about there |
| ReportDescriptor.dfy | the walks over HID report descriptors |
| Enumeration.dfy | hid_enumerate with its rollback, and hid_open |

Code that changes objects or buffers is modelled by classes and methods whose contracts equate the
new state with a function of the old one; the lemmas are about these functions. Threads are state
machines: one action is one step of one thread, and a run is any sequence of possible actions.
A device is an arbitrary infinite script of hid_read results, so "for every script" means for every
behaviour in which reads return.

## Main results

* Reassembly is exact precisely in a known range. The reader advances its write position by 64 for
  every frame while a frame carries 59 bytes, and stops reading after one frame per 64 bytes. From
  a clean start a response of total length T (two length bytes, data, two status bytes) is returned
  correctly for every content and status if and only if T <= 59 or 65 <= T <= 118
  (`Reassembly.ExactRangeClean`), and for every content with the status of success, the only one
  the commands accept, if and only if T <= 60 or 65 <= T <= 119 (`Reassembly.SuccessRangeClean`).
  The ranges for arbitrary counters, for a single content, and after an interrupted exchange are
  proved as well.
* Failed reads between the frames do no harm to a response of one frame. One of two frames comes out
  right, for every content, if and only if the second is read before `rn`, to which each failed
  read adds five, reaches the total; and nothing does if the first read fails
  (`FailedReads.ExactAmidRange`).
* get_app_list is right for all lists with names of given lengths if and only if there is no app, or
  one with a name of at most 44 bytes (`AppListFit.AppListRange`). For all other lengths there is a
  list that goes wrong.
* An exchange leaves exactly Ceil(T / 59) - Ceil(T / 64) frames unread. If that is positive, the next
  exchange on the handle fails on its first read and the wallet reopens the device. Whether the
  caller then gets what the device sends depends on how the first exchange ended: every response of
  total T2 comes through if and only if T2 <= 59, or 65 <= T2 <= 118 and the first exchange returned
  normally, that is, T <= 255 or 1 <= T % 64 <= 54 (`Answers.RecoversFromResidual`). After a
  response of 256 bytes the next signature is spoiled (`Answers.SpoiledSignature`).
* The retry loop ends if and only if some attempt has no handle or meets no wrong number
  (`RetryLoop.EndsIff`): a frame with another number than the one due, read before `rn` has reached
  the announced length. `rn` is not cleared between attempts, so at most 13106 attempts can fail
  after their first read; the loop goes on for ever only if all others fail on their first read
  (`RetryLoop.EndsWhenLate`), as with a device that sends an old frame again and again
  (`RetryLoop.StaleNeverEnds`).
* From any counters, if all attempts but the last meet a wrong number and the last handle delivers
  a successful response in the range for the counters left, each command returns what the device
  sent: signature, address, version and app list (`Answers.SignTxAnswer` and its siblings).
  A status other than success raises exchange_error with that status in every command
  (`Answers.StatusAnswers`). get_app_list returns an empty list if and only if the handle was lost or the reply is successful
  with at most one data byte (`Answers.EmptyListIff`).
* hid_close of the libusb back end can still return while the device stays attached, from every
  reachable state in which it has begun, if and only if the first submission of the transfer was
  accepted and the transfer has not outlived both cancellations
  (`LibusbProtocol.CloseReturnsAttachedIff`). It can outlive them: a transfer that times out before
  they take effect is submitted again, and then nobody cancels it (`LibusbProtocol.LostReached`).
  If the device may go away, the first submission alone decides. hid_close of the mac back end can
  always return (`MacProtocol.CloseCanReturn`).
* Framing of commands is injective: a reference device recovers the command from the frames.
* When wake-ups are lost. The libusb policy of signalling only when the list was empty needs a
  single reader, which m_dev_lock provides. The mac back end signals for every report, and still a
  reader whose wait times out just when it is signalled leaves the report to others that sleep on.
  No wake-up is lost if and only if there is at most one reader, or every report is signalled and
  nobody waits for a limited time (`MacProtocol.PolicySoundIff`).
* The report of every completed transfer or callback is delivered, dropped or discarded once and in
  order, or still queued or in the callback's hand.
* A queued report can be read without any spurious wake-up, by the one reader of the libusb back end
  (`LibusbProgress.QueuedIsRead`) and by some reader of the mac back end in the settings in which no
  wake-up is lost (`MacProgress.QueuedIsRead`); and once the device is stopped no read waits for
  ever (`LibusbProgress.StoppedReadEnds`, `MacProgress.StoppedReadEnds`).
* hid_open opens the path of the first entry with a HID parent, known bus, these ids and this serial
  number, and nothing if there is none (`Enumeration.HidOpen`).
* m_valid holds exactly if the handle is open, between any two operations of any allowed run, and
  handles are neither leaked nor closed twice.
* The parsers of app lists and descriptors invert their encodings; the app-list parser accepts
  nothing else.

## Assumptions about code that is not part of the repository

The toolbox library is not part of this model. Its buffers are taken to behave as the calls
require: a new buffer is all zeros, `write(pos, ...)` overwrites and grows with zeros,
`take_range(a, b)` is half-open and raises std::out_of_range if it is reversed or past the end, so
do `take_first` and `take_last` on a shorter buffer, `pop_front_to` moves as many bytes as fit,
`at` and `operator[]` are checked, and numbers are big-endian (the status bytes are, by
section 5.1.3 of ISO/IEC 7816-4:2005). libusb, IOKit, udev and the C library are environment
actions or parameters. A condition wait that times out may use up a signal, as POSIX allows for
pthread_cond_timedwait. A libusb transfer ends as cancelled only if libusb_cancel_transfer was called
while it was in flight, and may also end otherwise before that takes effect.

Where comments and code disagree, the model follows the code: the callbacks drop a report when 32
are queued although the comments speak of 30 (src/hid/libusb/hid.c:763-768,
src/hid/mac/hid.c:588-593), and get_usage returns the last usage page and usage before both are
known, not the first of each (src/hid/libusb/hid.c:241-244). get_usage and get_bytes are compiled
only with INVASIVE_GET_USAGE.

## Model

| member | source | states |
|---|---|---|
| FrameIo.ToBytes | include/minter/ledger/hidpp_base.h:77-90 | the field-by-field writes give header, length byte and payload, and zeros where the one-byte cast of the size copies less |
| FrameIo.ApduCast | include/minter/ledger/hidpp_base.h:77-90 | header, length byte, payload and zeros one by one, for sizes beyond one byte too |
| FrameIo.WriteApdu | src/frame_io.cpp:70-102 | exactly the frames of length prefix + APDU are handed to the device, in order; no byte of the reused chunk leaks into a shorter last frame |
| FrameIo.ChunkHoldsFrame | src/frame_io.cpp:86-93 | whatever the chunk held from the frame before, its front after the writes is the new frame |
| FrameIo.FrameAt | src/frame_io.cpp:84-99 | closed form of the k-th frame: its number and the 59-byte slice of the message it carries |
| FrameIo.FrameCount | src/frame_io.cpp:84-99 | a message takes its length divided by 59, rounded up, frames |
| FrameIo.WriteFraming | src/frame_io.cpp:70-102 | for payloads up to 255 bytes: at most 5 frames of at most 64 bytes, header 01 01 05, consecutive numbers, all full but the last, together carrying the message |
| FrameIo.UnframeFrames | src/frame_io.cpp:70-102 | a receiver that checks headers and numbers and joins the parts gets the message back |
| FrameIo.WriteRoundTrip | src/frame_io.cpp:70-102 | a device that also checks both length fields recovers class, instruction, parameters and payload |
| FrameIo.FramingInjective | src/frame_io.cpp:70-102 | different commands are never framed alike |
| HidppDevice.HidppDevice.Read | src/hidpp_device.cpp:129-161 | the block overwrites the buffer whatever hid_read returned, and the result is its int converted to size_t; if hid_error reports something, nothing is written and 0 is returned |
| HidppDevice.HidppDevice.Open | src/hidpp_device.cpp:68-81 | hid_open is asked for the two stored ids, or hid_open_path if one of them is 0; on success exactly one handle more is live |
| HidppDevice.HidppDevice.Close | src/hidpp_device.cpp:83-89 | closes a live handle and only that, never twice |
| HidppDevice.HidppDevice.Assign | src/hidpp_device.cpp:52-58 | copy assignment takes over the other handle and forgets its own |
| FrameIoApdu.FrameIoApdu.Read | src/frame_io.cpp:34-69 | accepts, skips or raises by the header checks in their order; a block that is not accepted changes neither counters nor output |
| FrameIoApdu.ReadStep | src/frame_io_apdu.cpp:50-52 | every read that does not raise adds at least five to rn, a failed one included |
| FrameIoApdu.ReadLoop | src/frame_io_apdu.cpp:50-52 | the loop ends for every script, and with rn at the response length unless a read raised |
| FrameIoApdu.FrameIoApdu.Exchange | src/frame_io_apdu.cpp:26-79 | sends the frames of the command and does on the heap what the function Receive says of counters, script and result; an oversized payload is refused before anything happens |
| FrameIoApdu.FrameIoApdu.Reset | src/frame_io.cpp:103-105 | only m_seq is reset |
| ReadCounters.LoopCounts | src/frame_io_apdu.cpp:50-52 | after any mixture of reads m_seq, m_offset and rn are 1, 64 and 64 per good frame plus 5 of rn per failed read, and the good frames were numbered in order |
| ReadCounters.ExchangeCounts | src/frame_io_apdu.cpp:26-79 | the same for a whole exchange, which makes at most 13108 reads whatever the device does; a normal return leaves the counters clear |
| ReadCounters.CleanExchangeCounts | src/frame_io_apdu.cpp:26-79 | an interrupted exchange from a clean start leaves m_seq = g, m_offset = 64g, rn = 64g + 5b and accepted the numbers 0 to g - 1 |
| ReadCounters.FailsIff | src/frame_io.cpp:54-56 | an exchange raises the wrong-sequence error iff it meets a full block with header 01 01 05 and a number other than that of the good frames so far, after reads in order that leave rn short of the announced length |
| ReadCounters.FailureMet | src/frame_io_apdu.cpp:41-52 | and then leaves the counters of the reads before that frame |
| Reassembly.AssembledIs | src/frame_io.cpp:58-67 | byte by byte, where frames land when the offset advances by 64: the gaps stay zero |
| Reassembly.ReceiveIs | src/frame_io_apdu.cpp:26-79 | closed form of an exchange with an undisturbed response, from arbitrary counters: frames read, buffer, result, counters left |
| Reassembly.ExactForContent | src/frame_io_apdu.cpp:39-69 | for one content the reply is right iff every byte after the length field is where it belongs |
| Reassembly.ExactInRange | src/frame_io_apdu.cpp:39-69 | in the exact range the reply is the device's data and status, for every content and padding |
| Reassembly.WrongOutOfRange | src/frame_io_apdu.cpp:39-69 | outside the range a content of ones is not returned correctly |
| Reassembly.ExactRange | src/frame_io_apdu.cpp:39-69 | for arbitrary counters at the start: right for every content iff T <= 59, or the offset is 0 and rn + 64 < T <= 118 |
| Reassembly.ExactRangeClean | src/frame_io_apdu.cpp:39-69 | from a clean start: right for every content iff T <= 59 or 65 <= T <= 118 |
| Reassembly.ExactRangeInterrupted | src/frame_io.cpp:103-105 | after an exchange that raised past its first frame: right for every content iff T <= 59, and for every successful response iff T <= 60 |
| Reassembly.ExactInSuccessRange | src/frame_io_apdu.cpp:39-69 | with status 0x9000, the reply is the device's data in a range wider by one at both ends |
| Reassembly.WrongOutOfSuccessRange | src/frame_io_apdu.cpp:39-69 | outside that range, data of ones with status 0x9000 are not returned correctly |
| Reassembly.SuccessRange | src/frame_io_apdu.cpp:39-69 | for arbitrary counters at the start: right for every successful response iff T <= 60, or the offset is 0 and rn + 64 < T <= 119 |
| Reassembly.SuccessRangeClean | src/frame_io_apdu.cpp:39-69 | from a clean start: right for every successful response iff T <= 60 or 65 <= T <= 119 |
| Reassembly.Residual | src/frame_io_apdu.cpp:41-52 | an exchange reads Ceil(T / 64) of Ceil(T / 59) frames; when the split is out of range; and if frames are left, the next exchange raises the wrong-sequence error on its first read |
| FailedReads.FailedRead | src/frame_io.cpp:38-40 | a read that does not yield 64, or after which hid_error reports something, adds five to rn and changes neither counters nor output |
| FailedReads.FullRead | src/frame_io.cpp:44-68 | a full block, byte by byte: which error it raises, in which order the header is checked, and what an accepted one changes |
| FailedReads.FirstBlock | src/frame_io_apdu.cpp:41-69 | what an exchange returns when its first block is from another channel, has another tag or number, or announces a length without room for a status |
| FailedReads.LoopBuffer | src/frame_io_apdu.cpp:50-52 | for every script, the loop leaves the buffer that the parts of the good frames make, in order |
| FailedReads.ReceiveAmid | src/frame_io_apdu.cpp:41-79 | closed form of an exchange with failed reads in between |
| FailedReads.ExactAmidFailures | src/frame_io_apdu.cpp:41-69 | a response in the range is returned as sent if the first read is good and the second frame, where it is needed, is read in time |
| FailedReads.FirstFails | src/frame_io_apdu.cpp:41-65 | if the first read fails, std::out_of_range is raised |
| FailedReads.ExactAmidRange | src/frame_io_apdu.cpp:41-69 | for a given pattern of failed reads: right for every content iff the first read is good and T <= 59, or the offset is 0, T <= 118 and rn plus five per failed read falls short of T before the second frame |
| WalletState.RunConsistent | src/nanos_wallet.cpp:28-227 | over every allowed run m_valid holds iff the handle is open, and opens minus closes is 1 or 0 accordingly |
| WalletState.ResultsTellState | src/nanos_wallet.cpp:35-195 | after any allowed run: init_ext and reopen_with_app return APP_OPENED, init_ext_root APP_NOT_OPENED and init and init_root true iff the wallet is valid and has an open handle afterwards; DISCONNECTED iff no device was found |
| WalletState.InitExtOpens | src/nanos_wallet.cpp:40-87 | after any allowed run, exactly when init_ext has each of its results, and how many handles it opens and closes |
| WalletState.InitExtRootOpens | src/nanos_wallet.cpp:89-124 | the same for init_ext_root |
| WalletState.ReopenWithAppOpens | src/nanos_wallet.cpp:35-38 | the same for reopen_with_app |
| WalletState.InitOpens | src/nanos_wallet.cpp:126-195 | when init and init_root succeed, and that they open one handle then and close none, on any wallet |
| WalletState.ExchangeOpens | src/nanos_wallet.cpp:208-224 | each reopening closes one handle and opens one, and the first that fails invalidates the wallet; close closes an open handle |
| WalletState.InitNeedsInvalid | src/nanos_wallet.cpp:126-195 | init and init_root keep a consistent wallet consistent for every answer of the system iff it was not valid |
| NanosWallet.NanosWallet.constructor | src/nanos_wallet.cpp:18-22 | a new wallet is not valid and has no handle |
| NanosWallet.NanosWallet.Close | src/nanos_wallet.cpp:28-33 | the new state is that of the state machine |
| NanosWallet.NanosWallet.InitExt | src/nanos_wallet.cpp:40-87 | result and new state are those of the state machine |
| NanosWallet.NanosWallet.InitExtRoot | src/nanos_wallet.cpp:89-124 | result and new state are those of the state machine |
| NanosWallet.NanosWallet.ReopenWithApp | src/nanos_wallet.cpp:35-38 | result and new state are those of the state machine |
| NanosWallet.NanosWallet.Init | src/nanos_wallet.cpp:126-161 | result and new state are those of the state machine, also on a valid wallet |
| NanosWallet.NanosWallet.InitRoot | src/nanos_wallet.cpp:163-195 | result and new state are those of the state machine, also on a valid wallet |
| NanosWallet.NanosWallet.Open | src/nanos_wallet.cpp:75-84 | the new framer replaces the old one without closing its handle, with clear counters; the device with these ids is asked for, and m_valid is set only on success |
| NanosWallet.NanosWallet.Attempt | src/nanos_wallet.cpp:209-223 | one turn of the loop: the exchange of the framer, and after a wrong sequence number the old handle is closed and the device with the same ids asked for, with the counters as they were |
| NanosWallet.NanosWallet.Exchange | src/nanos_wallet.cpp:197-227 | outcome, counters and reopenings are those of the function Retry; handle and m_valid are those of the state machine, at the end and while it is still retrying; each reopening asked for the same device, and every handle tried got the frames of the command |
| RetryLoop.WrongNumberIs | src/nanos_wallet.cpp:219-223 | an attempt retries iff it meets such a frame on a handle |
| RetryLoop.RetrySkips | src/nanos_wallet.cpp:208-224 | after attempts that meet wrong numbers the loop goes on as if started on the next handle with the counters they left |
| RetryLoop.RetryStops | src/nanos_wallet.cpp:208-224 | the attempts before the last one met wrong numbers, and the outcome is that of the last one alone |
| RetryLoop.UnfinishedIff | src/nanos_wallet.cpp:208-224 | after finitely many reopenings the loop is still retrying iff every attempt was on a handle and met a wrong number |
| RetryLoop.EndsIff | src/nanos_wallet.cpp:208-224 | over infinitely many reopenings, the loop ends iff some attempt has no handle or meets no wrong number |
| RetryLoop.LateFailuresBounded | src/nanos_wallet.cpp:208-224 | at most 13106 attempts can fail after their first read, because rn is kept between attempts and each of them adds to it |
| RetryLoop.EndsWhenLate | src/nanos_wallet.cpp:208-224 | so the loop ends if more than 13106 handles do not fail on their first read |
| RetryLoop.StaleNeverEnds | src/nanos_wallet.cpp:208-224 | with a device that always sends frame number 1 the loop never ends |
| RetryLoop.StuckEnds | src/nanos_wallet.cpp:208-224 | with a device that always sends frame number 0 of a long response, three attempts retry and the fourth ends the loop |
| RetryLoop.AtOnce | src/nanos_wallet.cpp:208-224 | attempts that fail on their first frame retry from any counters and change m_seq only |
| RetryLoop.RetryTransparent | src/nanos_wallet.cpp:208-224 | from any counters, if all attempts but the last fail on their first frame, the outcome is that of one exchange on the last handle |
| RetryLoop.RetryGivesFreshReply | src/nanos_wallet.cpp:208-224 | from clean counters the reply is then that of a fresh exchange, and the counters are clean |
| RetryLoop.RetriesForEver | src/nanos_wallet.cpp:208-224 | if every handle fails on its first frame, no number of reopenings is enough |
| Answers.AnsweredReply | src/nanos_wallet.cpp:208-224 | from any counters, after attempts that meet wrong numbers, a successful response in the range for the counters they left is returned with its data, and the counters are clean |
| Answers.AnsweredAtOnce | src/nanos_wallet.cpp:208-224 | after attempts that fail on their first frame, from clean counters, that is the clean range |
| Answers.SuccessAnswers | src/nanos_wallet.cpp:229-354 | what each command makes of a successful response of any length in the range, std::out_of_range for short ones included |
| Answers.StatusAnswers | src/nanos_wallet.cpp:272-275 | a response in the range with a status other than 0x9000 raises the exchange error with that status in all four commands |
| Answers.ErrorAnswers | src/nanos_wallet.cpp:216-218 | every other error of the last attempt reaches the caller of every command |
| Answers.SignTxAnswer | src/nanos_wallet.cpp:253-283 | then sign_tx returns r, s and v, which together are the 65 bytes sent |
| Answers.GetAddressAnswer | src/nanos_wallet.cpp:229-251 | then get_address returns the 20 bytes sent |
| Answers.GetVersionAnswer | src/nanos_wallet.cpp:285-310 | then get_app_version returns a string that reads back to the three bytes sent |
| Answers.GetAppListAnswer | src/nanos_wallet.cpp:312-354 | then get_app_list returns the list that the response carries |
| Answers.EmptyListIff | src/nanos_wallet.cpp:312-354 | get_app_list returns an empty list iff, after attempts that meet wrong numbers, there is no handle, or the reply is successful with at most one data byte |
| Answers.LostHandle | src/nanos_wallet.cpp:210-213 | if reopening fails the status stays that of success: get_app_list returns an empty list and the other commands raise std::out_of_range |
| Answers.AfterResidual | src/nanos_wallet.cpp:208-224 | after an exchange that left frames unread the next one reopens the device once and reads the fresh response with m_offset and rn as they were left |
| Answers.RecoversFromResidual | src/nanos_wallet.cpp:208-224 | exactly which responses are then returned correctly: T2 <= 59, or 65 <= T2 <= 118 if the first exchange returned normally; for successful ones T2 <= 60 and 65 <= T2 <= 119 |
| Answers.SpoiledSignature | src/nanos_wallet.cpp:216-218 | a response of 256 bytes raises std::out_of_range and spoils the signature asked for next |
| NanosWallet.NanosWallet.GetAddress | src/nanos_wallet.cpp:229-251 | the command sent and the reply decoded, through the retry loop, with every error path |
| NanosWallet.NanosWallet.SignTx | src/nanos_wallet.cpp:253-283 | the command sent and the reply decoded, through the retry loop, with every error path |
| NanosWallet.NanosWallet.GetAppVersion | src/nanos_wallet.cpp:285-310 | the command sent and the reply decoded, through the retry loop, with every error path |
| NanosWallet.NanosWallet.GetAppList | src/nanos_wallet.cpp:312-354 | the command sent and the reply parsed, through the retry loop, with every error path |
| Commands.SignTxEndToEnd | src/nanos_wallet.cpp:253-283 | the device recovers index and hash from the frames, and r, s and v together are the 65 bytes it sent |
| Commands.GetAddressEndToEnd | src/nanos_wallet.cpp:229-251 | the device recovers index and silent flag, and the address is the 20 bytes it sent |
| Commands.GetVersionEndToEnd | src/nanos_wallet.cpp:285-310 | reading the version string back gives the three bytes the device sent |
| Commands.CommandsSent | include/minter/ledger/nanos_wallet.h:22-25 | class, instruction, parameters and payload of the four commands as the device parses them, in literal bytes; index with the most significant byte first; hashes of other lengths cut or padded |
| Commands.VersionFrame | src/frame_io.cpp:70-102 | the one frame of get_app_version, byte for byte |
| Commands.ReadVersionString | src/nanos_wallet.cpp:299-309 | the version string determines its three numbers |
| AppListFit.AppListEndToEnd | src/nanos_wallet.cpp:312-354 | no app, or one with a name of at most 44 bytes, comes through frames, reassembly and parser as it is |
| AppListFit.OnesNotReturned | src/nanos_wallet.cpp:312-354 | for all other name lengths, a list whose bytes are nearly all 1 is not returned |
| AppListFit.AppListRange | src/nanos_wallet.cpp:312-354 | every list with names of these lengths is returned, for every content and padding, iff there is no app, or one with a name of at most 44 bytes |
| AppListFit.TwoAppsNotReturned | src/nanos_wallet.cpp:312-354 | a list of two apps with names of seven bytes that is not returned |
| AppList.ParseAppList | src/nanos_wallet.cpp:326-353 | the offset loop computes the function Parse, with std::out_of_range where a record is cut short |
| AppList.ParseEncode | src/nanos_wallet.cpp:326-353 | parsing an encoded list gives the list, whatever the version and skipped bytes |
| AppList.ParseIff | src/nanos_wallet.cpp:326-353 | a non-empty response parses to a list iff it is an encoding of that list |
| AppList.FieldsAt | src/nanos_wallet.cpp:328-349 | which bytes of the response each field of each item is |
| AppList.ParseRaises | src/nanos_wallet.cpp:326-353 | what does not parse raises std::out_of_range |
| ReportQueue.Enqueue | src/hid/libusb/hid.c:745-770 | at most 32 reports are queued between callbacks |
| ReportQueue.ReportList.ReturnData | src/hid/libusb/hid.c:1055-1067 | the first report leaves the list and is freed; as much of it as fits is copied, the rest of the buffer is unchanged |
| ReportQueue.ReportList.AttachAtEnd | src/hid/libusb/hid.c:754-761 | the walk finds the last node and counts the ones before it |
| ReportQueue.ReportList.Append | src/hid/libusb/hid.c:747-769 | the linked list refines the sequence: appended at the end, the oldest dropped and freed only if 32 were queued |
| ReportQueue.ReportList.Clear | src/hid/libusb/hid.c:1257-1262 | hid_close frees every queued report |
| ReportQueue.PopConserves | src/hid/mac/hid.c:796-807 | taking the first report keeps the queue conserved |
| ReportQueue.ArriveConserves | src/hid/mac/hid.c:573-594 | an arrival, with its drop, keeps the queue conserved |
| LibusbProtocol.Invariant | src/hid/libusb/hid.c:732-867 | the inductive invariant of locks, phases, transfer, reader and queue holds in every reachable state |
| LibusbProtocol.NoLostWakeup | src/hid/libusb/hid.c:1087-1112 | a reader asleep with no wake-up pending has an empty list, and the shutdown broadcast is still to come |
| LibusbProtocol.ReadResults | src/hid/libusb/hid.c:1076-1159 | a read returns the report that was just delivered, nothing only if it is timed or non-blocking with an empty list, and failure only after shutdown and with the list empty |
| LibusbProtocol.NothingAfterTimeout | src/hid/libusb/hid.c:1125-1148 | a timed read returns nothing only after its wait timed out |
| LibusbProtocol.Conservation | src/hid/libusb/hid.c:737-770 | the report of every completed transfer is delivered, dropped or discarded once, in order, or queued or in the callback's hand; drops only at 32; nothing is left after hid_close |
| LibusbProtocol.TransferLifetime | src/hid/libusb/hid.c:737-856 | if the first submission succeeded, outside the callback `cancelled` holds iff no transfer is in flight, and implies shutdown; the thread ends only then, and the transfer is freed only after |
| LibusbProtocol.StartAndStopOrder | src/hid/libusb/hid.c:819-822 | after the barrier the transfer exists; no reader is inside hid_read while hid_close runs |
| LibusbProtocol.CloseReturnsIffAccepted | src/hid/libusb/hid.c:1235-1265 | from every reachable state in which hid_close has begun, some continuation, in which the device may go away, lets it return iff the first submission was accepted |
| LibusbProtocol.CloseReturnsAttachedIff | src/hid/libusb/hid.c:788-795 | some continuation in which the device stays attached lets it return iff the first submission was accepted and the transfer has not outlived both cancellations |
| LibusbProtocol.LostReached | src/hid/libusb/hid.c:788-795 | a transfer in flight can outlive both: it times out before they take effect and is submitted again |
| LibusbProtocol.ClosingReached | src/hid/libusb/hid.c:817-822 | hid_close can begin after an accepted first submission and after one that was not |
| LibusbProgress.OpenReturns | src/hid/libusb/hid.c:817-822 | hid_open_path can return from every reachable state, whichever thread is first at the barrier and whatever becomes of the submission |
| LibusbProgress.TakesFirst | src/hid/libusb/hid.c:1090-1095 | a reader at its first look returns the first queued report in its next step |
| LibusbProgress.AnswersEmpty | src/hid/libusb/hid.c:1097-1153 | with an empty list it fails on a stopped device, and otherwise returns nothing if it does not block |
| LibusbProgress.GoesToSleep | src/hid/libusb/hid.c:1104-1138 | and otherwise goes to sleep and gives the mutex back |
| LibusbProgress.WaitEnds | src/hid/libusb/hid.c:1125-1148 | a timeout makes a timed read return nothing, whatever is queued by then; a wake-up, spurious or not, leads back to the test of the list |
| LibusbProgress.MayBegin | src/hidpp_device.cpp:68-89 | reads and hid_close can begin on an open device exactly while no reader is inside; a transfer in flight can end with any status, as cancelled only if asked to |
| LibusbProgress.QueuedIsRead | src/hid/libusb/hid.c:1087-1159 | from every reachable state with a reader inside and a report queued, no timeout taken, some continuation without spurious wake-up returns a report |
| LibusbProgress.StoppedReadEnds | src/hid/libusb/hid.c:846-853 | from every reachable state with the device stopped and a reader inside, some such continuation returns a report or a failure |
| LibusbProgress.TransferGoesOn | src/hid/libusb/hid.c:732-796 | after every status but cancelled and no device the transfer is submitted again, its report queued before; those two stop the device |
| LibusbProgress.OnlyFatalErrorsLeave | src/hid/libusb/hid.c:825-840 | a fatal error ends the first loop for good, any other return goes on with it until shutdown |
| MacProtocol.Invariant | src/hid/mac/hid.c:556-674 | the inductive invariant holds in every reachable state, for any number of readers in all three modes and for every setting |
| MacProtocol.NoLostWakeup | src/hid/mac/hid.c:809-848 | with any number of readers none of which waits for a limited time, before shutdown and disconnection, if one sleeps with no wake-up pending, the queued reports are at most as many as the woken readers that are yet to take one; in every setting none sleeps through the broadcast |
| MacProtocol.ReadResults | src/hid/mac/hid.c:850-922 | a read returns the report that was just delivered, nothing only if it is timed or non-blocking with an empty list, and failure only after shutdown or disconnection |
| MacProtocol.NothingAfterTimeout | src/hid/mac/hid.c:829-848 | a timed read returns nothing only after its wait timed out |
| MacProtocol.Conservation | src/hid/mac/hid.c:556-600 | the report of every callback is delivered or dropped once, in order, or queued or in the callback's hand |
| MacProtocol.BarrierOrder | src/hid/mac/hid.c:629-671 | no reader and no hid_close before the read thread has stored its run loop; the thread still exists while hid_close wakes its run loop, and has made its broadcast and ended when hid_close goes on |
| MacProtocol.CloseCanReturn | src/hid/mac/hid.c:962-989 | from every reachable state in which hid_close has begun, whatever the readers are doing, some continuation gets it past the join |
| MacProgress.OpenReturns | src/hid/mac/hid.c:635-731 | hid_open_path can return from every reachable state, whichever thread is first at the barrier |
| MacProgress.TakesFirst | src/hid/mac/hid.c:857-862 | a reader at its first look returns the first queued report in its next two steps |
| MacProgress.AnswersEmpty | src/hid/mac/hid.c:864-917 | with an empty list it fails on a stopped device, and otherwise returns nothing if it does not block |
| MacProgress.WaitEnds | src/hid/mac/hid.c:809-848 | a timeout makes a timed read return nothing, whatever is queued by then; a wake-up, spurious or not, leads to the test of the flags |
| MacProgress.MayBegin | src/hid/mac/hid.c:681-740 | on an open device idle readers and hid_close can begin at any time, and reports can arrive |
| MacProgress.QueuedIsRead | src/hid/mac/hid.c:809-848 | where no wake-up is lost, from every reachable state before shutdown with a reader inside and a report queued, some continuation without spurious wake-up or timeout delivers a report |
| MacProgress.StoppedReadEnds | src/hid/mac/hid.c:656-666 | from every reachable state with the device stopped, every reader inside can return a report or a failure in such a continuation |
| MacProgress.RemovalStops | src/hid/mac/hid.c:638-655 | removal and the codes Finished and Stopped stop the device; after the others the loop goes on until it is stopped |
| MacProtocol.SignalOnEmptyLosesWakeup | src/hid/mac/hid.c:596-597 | readers of the mac back end under a policy it does not have, that of src/hid/libusb/hid.c:748-762: with two of them, signalling only for an empty list reaches a state with a sleeper and a report nobody is coming for |
| MacProtocol.TimeoutLosesWakeup | src/hid/mac/hid.c:829-848 | with two readers one of which waits for a limited time, the same happens under either policy |
| MacProtocol.PolicySoundIff | src/hid/mac/hid.c:596-597 | no wake-up is lost in any reachable state before shutdown iff there is at most one reader, or every report is signalled and nobody waits for a limited time |
| ReportDescriptor.VisitsItems | src/hid/linux/hid.c:147-204 | on the encoding of any items the index stops exactly where items begin |
| ReportDescriptor.NextIs | src/hid/linux/hid.c:164-201 | one step of the walk on arbitrary bytes |
| ReportDescriptor.NumberedReportsIff | src/hid/linux/hid.c:147-204 | the walk meets a Report ID key iff an item has it as its prefix, never because of data |
| ReportDescriptor.ReportIdInData | src/hid/linux/hid.c:155-160 | two descriptors in bytes, one with the key and one with the same byte as data |
| ReportDescriptor.UsesNumberedReports | src/hid/linux/hid.c:147-204 | on arbitrary bytes the loop ends, reads in bounds, and answers whether the walk meets a Report ID key |
| ReportDescriptor.GetBytesIs | src/hid/libusb/hid.c:217-239 | the data bytes in little-endian order, or 0 if they are not all there |
| ReportDescriptor.GetUsage | src/hid/libusb/hid.c:245-313 | on arbitrary bytes the loop ends and gives what the walk finds; out-parameters keep their values where nothing is found |
| ReportDescriptor.UsageOfItems | src/hid/libusb/hid.c:245-313 | succeeds iff both kinds of item occur, and finds the last value of each, in 16 bits, within the shortest prefix that has both |
| ReportDescriptor.UsageAtFront | src/hid/libusb/hid.c:245-313 | descriptors in bytes: the usage page of one, two or four data bytes and the usage at their front are found |
| Enumeration.LinkIn | src/hid/linux/hid.c:459-469 | the record becomes the last node of the list |
| Enumeration.TakeOff | src/hid/linux/hid.c:498-510 | the rollback restores the list from before the record was linked in |
| Enumeration.AddRecord | src/hid/linux/hid.c:453-548 | the list grows by the entry's record iff the entry is usable; otherwise the node is freed and unreachable |
| Enumeration.HidEnumerate | src/hid/linux/hid.c:379-563 | the linked list is the in-order filter of the usable matching entries, and no freed node is in it |
| Enumeration.ListedAt | src/hid/linux/hid.c:404-557 | every usable matching entry has its record, at the position given by the entries before it |
| Enumeration.ComesFrom | src/hid/linux/hid.c:404-557 | every record comes from such an entry |
| Enumeration.RecordHolds | src/hid/linux/hid.c:430-548 | which entries are listed, and what each field of their record holds, in the fields of the entry |
| Enumeration.OnlyWantedListed | src/hid/linux/hid.c:404-557 | every record is that of such an entry, with its path |
| Enumeration.SelectDevice | src/hid/linux/hid.c:586-602 | the walk finds the first record with exactly these ids and serial number |
| Enumeration.OpenSelectsFirst | src/hid/linux/hid.c:578-602 | what is selected from the list is the first usable entry with exactly these ids and serial number; wildcards make no difference |
| Enumeration.HidOpen | src/hid/linux/hid.c:578-614 | the path to open is that of the first entry with a HID parent, parsed info, Bluetooth or USB with its parent, these ids and this serial number; none without such an entry |

## Left out

- NanosWallet.NanosWallet.Exchange: the contract covers every finite number of reopenings, with the outcome Unfinished where they were not enough; RetryLoop.EndsIff says when the loop ends. That m_devLock excludes other callers is taken for granted.
- NanosWallet.NanosWallet.SignTx: hashes of more than 251 bytes are excluded, because the source then writes past the end of the payload array, which has no defined result.
- HidppDevice.HidppDevice.Read: when hid_error reports something, as the hidraw back end does, the source locks m_dev_lock a second time on its way to returning 0; the model only returns 0. hid_write results are ignored, as in the source.
- Reassembly.ExactRange: responses whose length field wraps 16 bits or is below 2, and exchanges whose first read fails, are not part of the range; they depend on reversed toolbox ranges. The function Receive models them under the assumption above.
- ReadCounters.LoopCounts: m_offset and rn are unbounded, without the wrap-around of size_t.
- ReportDescriptor.UsesNumberedReports: descriptors within 258 bytes of the 32-bit limit are excluded, because the index would wrap; the buffer of the source has 4096 bytes. The same holds for GetUsage.
- LibusbProtocol.Invariant: one device. Events of one device that are handled by the thread of another, spurious wake-ups in the hand-written barrier, and errors and cancellation of the condition wait, and memory ordering of the flags that are accessed without the mutex are not modelled; each access is one atomic step.
- MacProtocol.Invariant: errors of the condition waits other than the timeout, memory ordering of the flags, and what hid_close frees after the join are not modelled; readers begin before hid_close does.
- Enumeration.HidEnumerate: parsing of the uevent text and of numbers in sysfs attributes is a parameter; prev_dev is local to one entry, because the source sets it before every use.
- Real time: timeouts are actions that may happen at any step, the sleep in the retry loop is left out.
- init or init_root on a wallet that is already valid leaves a handle open; the state machine shows it, and the run theorem excludes it.
- run_app and get_opened_app_pid, which send a command or enumerate and pick an id; error strings, logging, hex dumps, the command line and the build files.
- The Windows back end, and the report number byte that hidpp_device adds for it.
- hid_write and feature reports of the HID back ends: thin calls into the operating system.
- Address and signature types of minter_tx, and the cryptography behind them.
