# HDLC-style serial link layer: frames, acknowledgement receiver, retransmission loops

This project models the frame-level core of a small serial link layer: a
simplified HDLC used between a transmitter (LlTx) and a receiver (LlRx).

- **Frames** (`FrameDefs`, `FrameUtils`, `LlMacros`, `IFrame`):
  - Supervision and unnumbered (S/U) frames are five octets: flag 0x7E,
    address, control, BCC1 = address XOR control, flag.
  - Information (I) frames are a four-octet header, the payload, the
    XOR-parity octet BCC2 of the unstuffed payload, and a flag. The payload is
    octet-stuffed as in section 4.2 of RFC 1662: 0x7E and 0x7D travel as
    0x7D followed by the octet XOR 0x20.
  - `prepSU`, `funcI_BCC2` and the frame build inside `llwrite` are methods
    over arrays; `xor_all` is a method over the sequence of its variadic
    arguments. Each is proved against a specification function
    (`SuFrame`, `Bcc2`, `XorFold`, `Frame`/`Stuff`). Lemmas then state the
    properties of those functions: round trip through destuffing, length
    bounds, error detection by the parity, order independence.
- **The S/U receiver `readSU`** (`SuReceiver`):
  - A six-state machine that reads one octet at a time.
  - In open/close mode it waits for one control octet.
  - In acknowledgement mode it waits for RR(frameNum) and gives up at once on
    REJ(frameNum).
  - `ReadSU` is a loop that writes the caller's buffer. It is proved equal to
    the pure run `Run` over the sequence of read results, and lemmas describe
    `Run`: per-state rules, acceptance on exactly the fifth octet of a frame,
    resynchronisation, and rejects.
- **The link layer** (`LinkLayer`):
  - The globals of `src/link_layer.c` are the fields of the class `Link`.
  - `llopen`, `llwrite` and `llclose` are its methods.
  - Their retransmission loops are proved against the specification function
    `Retry`. `Retry` says how many frames go out, how many timeouts and rejects
    are counted, and how the loop ends.
  - The serial port and the alarm are an explicit environment. Each pass of
    a loop consumes one `Attempt`: whether the write succeeded, and the read
    results the peer produced before the alarm fired. A reply that runs out
    before a frame is complete is a timeout, and the alarm handler has
    incremented `alarmCount`.
  - `attempted` records every frame handed to the port, in order.

## Model

| member | source | states |
|---|---|---|
| FrameDefs.IcAlternates | include/frame_utils.h:33-35 | I_C(n) is 0x00 exactly for even n and 0x80 exactly for odd n, so consecutive frame counts get different control octets and counts two apart get the same |
| FrameDefs.StuffMaskInvolution | include/frame_utils.h:46 | STUFF_MASK applied twice gives the octet back |
| FrameDefs.StuffMaskClearsReserved | include/frame_utils.h:45-46 | STUFF_MASK maps 0x7E to 0x5E and 0x7D to 0x5D, and the masked image of a flag or escape is neither |
| FrameDefs.Bcc1Recovers | include/frame_utils.h:23 | BCC1 together with either header field gives back the other field; I_BCC1 and SU_BCC1 agree |
| FrameDefs.SuHeadersAvoidFlag | include/frame_utils.h:12-23 | for address 0x03 the BCC1 of SET, UA, RR0, RR1, REJ0, REJ1 and DISC is 00, 04, A9, A8, 57, 56, 08, and no control code or BCC1 is a flag |
| FrameDefs.SuControlsDistinct | include/frame_utils.h:15-21 | the seven S/U control codes are pairwise distinct |
| FrameUtils.FuncIBcc2 | src/frame_utils.c:4-13 | the loop returns the left XOR fold of arr[0..len), 0 for len <= 0, and the result is below 256 |
| FrameUtils.PrepSU | src/frame_utils.c:16-24 | buf[0..5) becomes [0x7E, addr, ctrl, addr^ctrl, 0x7E] whatever it held before, and every octet past the fifth is unchanged |
| FrameUtils.Bcc2Empty | src/frame_utils.c:6-12 | the parity of an empty payload is 0 |
| FrameUtils.Bcc2Cons | src/frame_utils.c:8-10 | folding from the right gives the same parity as folding from the left |
| FrameUtils.Bcc2Concat | src/frame_utils.c:8-10 | the parity of a concatenation is the XOR of the two parities |
| FrameUtils.Bcc2WithTrailer | src/frame_utils.c:8-10 | a payload followed by its own parity octet has parity 0 |
| FrameUtils.Bcc2OctetError | src/frame_utils.c:8-10 | XORing an error pattern e into one octet changes the parity by exactly e |
| FrameUtils.Bcc2DetectsOctetError | src/frame_utils.c:8-10 | any non-zero error pattern confined to one octet changes the parity |
| FrameUtils.Bcc2DetectsBitFlip | src/frame_utils.c:8-10 | flipping any single bit of any one octet changes the parity |
| FrameUtils.PrepSuExamples | src/frame_utils.c:19-23 | prepSU(0x03, SET) is 7E 03 03 00 7E and prepSU(0x03, UA) is 7E 03 07 04 7E |
| LlMacros.XorAll | include/ll_macros.h:41-54 | xor_all(count, ...) returns the left XOR fold of its first count arguments, and 0 when count <= 0 |
| LlMacros.XorFoldEmpty | include/ll_macros.h:42-53 | xor_all of no arguments is 0 |
| LlMacros.XorFoldConcat | include/ll_macros.h:47-50 | the fold of a concatenation is the XOR of the folds |
| LlMacros.XorFoldPermutation | include/ll_macros.h:47-50 | any two argument lists that are permutations of each other give the same result |
| LlMacros.XorFoldOfOctets | include/ll_macros.h:47-50 | if every argument is below 256 then so is the result |
| LlMacros.XorFoldWidened | include/ll_macros.h:41-54 | on octets widened to unsigned int, xor_all yields the same parity as funcI_BCC2 |
| LlMacros.ConstantsAgree | include/ll_macros.h:10-37 | every SU_FRM_* and I_FRM_* flag, address and control constant, each declared on its own, and the separately declared SU_FRM_BCC1 and I_FRM_BCC1 equal SU_BCC1 and I_BCC1 of include/frame_utils.h |
| IFrame.BuildIFrame | src/link_layer.c:150-169 | the octets llwrite writes into stuffBuf are exactly Frame(payload, frameCount), and their count j lies between bufSize+6 and I_BUF_SIZE(bufSize) |
| IFrame.StuffPayload | src/link_layer.c:157-165 | after the stuffing loop the buffer holds the header followed by the stuffed payload, and j = 4 + the stuffed length, between bufSize+4 and 2*bufSize+4; the octets from j on are untouched |
| IFrame.PutOctet | src/link_layer.c:159-164 | one round writes 0x7D and octet^0x20 for a flag or escape and the octet itself otherwise, advancing j by the same amount and leaving the octets from the new j on untouched |
| IFrame.NarrowParity | src/link_layer.c:168 | storing the unsigned int parity into an octet loses nothing |
| IFrame.StuffSnoc | src/link_layer.c:157-165 | stuffing proceeds octet by octet from the front |
| IFrame.StuffConcat | src/link_layer.c:157-165 | the stuffing of a concatenation is the concatenation of the stuffings |
| IFrame.StuffLength | src/link_layer.c:157-165 | the stuffed length is the payload length plus the number of 0x7E and 0x7D octets, which is at most the payload length |
| IFrame.StuffHasNoFlag | src/link_layer.c:157-165 | no 0x7E octet occurs in a stuffed payload |
| IFrame.DestuffStuff | src/link_layer.c:157-165 | destuffing a stuffed payload gives the payload back |
| IFrame.FrameLength | src/link_layer.c:157-169 | the frame length is bufSize + 6 + the number of escaped octets, so bufSize+6 <= j <= 2*bufSize+6 |
| IFrame.FrameDecodes | src/link_layer.c:151-169 | an I frame begins with its header and ends with a flag, the octets between header and trailer destuff to the payload, and the parity octet checks against the payload |
| IFrame.HeaderAvoidsFlag | src/link_layer.c:151-154 | the address, control and BCC1 octets of an I-frame header are never flags |
| IFrame.FrameExamples | src/link_layer.c:151-169 | the frame for payload 01 02 with count 0 is 7E 03 00 03 01 02 03 7E, and 7E and 7D are stuffed as 7D 5E and 7D 5D |
| IFrame.TrailerMimicsFlag | src/link_layer.c:168-169 | as written, payload 7E gives frame 7E 03 00 03 7D 5E 7E 7E: the unstuffed parity is a flag one octet before the closing flag |
| IFrame.IntendedFrameDelimited | src/link_layer.c:168-169 | with the parity stuffed too, flags occur only at the two ends, the body destuffs to payload plus parity, and the frame needs at most one octet more than I_BUF_SIZE |
| SuReceiver.StepExits | src/link_layer.c:365-470 | a step leaves the machine early exactly on REJ(frameNum) in acknowledgement mode in SU_A_STATE, and reaches SU_DONE exactly on a flag in SU_BCC_STATE |
| SuReceiver.RunReports | src/link_layer.c:352-483 | a run never reads past its input; a timeout has consumed all of it; a read error or reject is the last result read; rejects happen only in acknowledgement mode |
| SuReceiver.ReadSU | src/link_layer.c:346-483 | readSU returns the outcome and read count of Run from SU_START; on success buf[1..5) holds the address, the awaited control octet, its BCC1 and the flag |
| SuReceiver.Advance | src/link_layer.c:364-471 | one pass of the switch makes the move Step prescribes and keeps the buffer consistent with the new state |
| SuReceiver.ClearFront | src/link_layer.c:372 | memset with sizeof(SU_BUF_SIZE) clears the first sizeof(int) octets and leaves the rest alone |
| SuReceiver.ReadSuOC | src/link_layer.c:336-339 | readSU_OC is readSU with frameNum -1 and its guarantees |
| SuReceiver.ReadSuRW | src/link_layer.c:341-344 | readSU_RW is readSU in acknowledgement mode; on success buf[1..5) holds the RR frame for frameNum |
| SuReceiver.CallersDelimited | src/link_layer.c:396-424 | SET, UA, DISC and RR(frameNum) and their BCC1 are not flags, RR differs from REJ, and REJ is not a flag |
| SuReceiver.StepRules | src/link_layer.c:365-470 | noise stays in SU_START, a repeated flag stays in SU_FLAG_STATE, a flag resynchronises SU_A_STATE and SU_C_STATE, every other mismatch returns to SU_START |
| SuReceiver.RunAfterFeed | src/link_layer.c:352-470 | feeding octets that lead to a state other than SU_DONE consumes all of them and the run continues from that state |
| SuReceiver.DoneAbsorbs | src/link_layer.c:352 | once in SU_DONE, further octets leave the machine there |
| SuReceiver.HeaderWalk | src/link_layer.c:365-445 | the first four octets of an awaited frame lead through SU_FLAG_STATE, SU_A_STATE, SU_C_STATE to SU_BCC_STATE from any state but SU_BCC_STATE and SU_DONE |
| SuReceiver.FrameAcceptedOnFifthOctet | src/link_layer.c:440-470 | an awaited S/U frame is accepted on exactly its fifth octet whatever follows, and each proper prefix only times out |
| SuReceiver.FrameReads | src/link_layer.c:365-470 | the octets the receiver waits for are the events of the S/U frame built by prepSU with the transmitter address and the awaited control octet |
| SuReceiver.StepKeepsMatch | src/link_layer.c:365-470 | each transition into SU_FLAG_STATE, SU_A_STATE, SU_C_STATE, SU_BCC_STATE or SU_DONE happens on the next octet of the awaited frame, so the octets just read are the frame's first 1 to 5 octets |
| SuReceiver.RunKeepsMatch | src/link_layer.c:352-470 | from any state whose matched prefix was just read, a run that ends in SU_DONE has just read the whole awaited frame |
| SuReceiver.AcceptedOnlyOnFrame | src/link_layer.c:346-483 | readSU returns 1 only when the last five values the switch saw are exactly the awaited S/U frame |
| SuReceiver.NoiseStaysIdle | src/link_layer.c:365-375 | octets that are not flags keep the receiver in SU_START |
| SuReceiver.NoiseThenFrame | src/link_layer.c:365-470 | noise without flags followed by an awaited frame is accepted after noise length + 5 reads |
| SuReceiver.RejectEndsRun | src/link_layer.c:415-424 | in acknowledgement mode flag, address, REJ(frameNum) ends the run with result 0 after three reads |
| LinkLayer.LimitConversion | src/link_layer.c:67 | the int limit compared with the unsigned alarmCount keeps its value when non-negative and becomes 2^32 + n, at least 2^31, when negative |
| LinkLayer.RetryAccounting | src/link_layer.c:178-209 | each write is followed by one timeout, one reject or the end of the loop; timeouts never exceed the limit and reach it exactly when the loop is exhausted; writes are at most the limit plus the rejects, and at most the limit outside acknowledgement mode |
| LinkLayer.RetryCapped | src/link_layer.c:178-209 | the loop with every result 0 counted against the limit makes at most as many writes as the limit and is exhausted exactly when timeouts and rejects reach it |
| LinkLayer.Link.constructor | src/link_layer.c:20-32 | the globals start at zero and the role at LlTx |
| LinkLayer.Link.WriteSU | src/link_layer.c:325-332 | the five frame octets go to the port; the result is 1 if all were written and -1 otherwise |
| LinkLayer.Link.Open | src/link_layer.c:45-128 | -1 and no change if the port does not open; otherwise role and limit are saved and the transmitter or receiver handshake runs, with the results stated below |
| LinkLayer.Link.OpenTx | src/link_layer.c:61-110 | SET goes out once per Retry write; the result is 1 exactly when UA arrives; alarmCount ends at 0; retransmissionCount grows by the timeouts |
| LinkLayer.Link.SuPass | src/link_layer.c:69-90 | one pass sends the S/U frame and reports a write error or readSU_OC's outcome, which is never a reject |
| LinkLayer.Link.OpenRx | src/link_layer.c:111-125 | the receiver waits for SET; a read error gives -1 and sends nothing; otherwise UA is sent and the write result is returned |
| LinkLayer.Link.Write | src/link_layer.c:134-220 | -1 and no change for bufSize <= 0; otherwise Frame(buf, frameCount) goes out once per Retry write, the result is its length exactly when RR arrives, alarmCount is kept after a write error and cleared otherwise, and retransmissionCount grows by the timeouts and rejects |
| LinkLayer.Link.WriteLoop | src/link_layer.c:176-219 | the retransmission loop of llwrite as stated for Write, for an already built frame |
| LinkLayer.Link.IPass | src/link_layer.c:181-193 | one pass sends the whole I frame and reports a write error or readSU_RW's outcome |
| LinkLayer.Link.Close | src/link_layer.c:241-312 | the receiver only closes the port; the transmitter sends DISC once per Retry write, answers a DISC with UA, returns the port's close status only if both happened, and never counts a retransmission |
| LinkLayer.Link.DiscPass | src/link_layer.c:251-269 | one pass sends DISC, clears the buffer and reports a write error or readSU's outcome for DISC, which is never a reject |
| LinkLayer.ClearAll | src/link_layer.c:261 | memset(closeBuf, 0, sizeof(closeBuf)) zeroes the whole buffer |
| LinkLayer.SilentPeerExhausts | src/link_layer.c:67-109 | with a silent peer the loop writes exactly as often as the limit allows, times out every time and ends exhausted |
| LinkLayer.PromptAnswer | src/link_layer.c:67-99 | a peer that answers the first write with the awaited frame ends the loop after one write with no timeout |
| LinkLayer.RejectingRefused | src/link_layer.c:193-204 | a reply flag, address, REJ is a reject and a reply carrying the RR frame is an acknowledgement |
| LinkLayer.RejectsEvadeLimit | src/link_layer.c:178-204 | as written, k rejects followed by RR take k + 1 writes and count no timeout, whatever the limit |
| LinkLayer.RejectsThenAccept | src/link_layer.c:178-204 | the same, from any point of the loop |
| LinkLayer.RejectsWithinLimit | src/link_layer.c:178-204 | when rejects count against the limit, a peer that rejects at least as often as the limit is given up on after exactly that many writes |

## Left out

- The serial port (`openSerialPort`, `readByteSerialPort`, `writeBytesSerialPort`, `closeSerialPort`) is foreign code. The port's open result, each write's success, the read results and the close status are parameters.
- The alarm (`alarmHandler`, `signal`, `alarm`, `alarmEnabled`) is asynchronous signal delivery. A timeout is a reply that runs out before a frame is complete, and it counts as one alarm. The model follows that intent: a completed frame is result 1 and a timeout is result 0. The code does not do this literally:
  - the loop guard at src/link_layer.c:352 stops the transmitter from reading at all while the alarm is armed, so `readSU` returns 0 at once;
  - src/link_layer.c:476 is an assignment written as a comparison, so it leaves `alarmEnabled` unchanged;
  - the test at src/link_layer.c:475 holds as long as the alarm has not fired, so even with the guard at line 352 corrected, a frame completed before the alarm would be reported as a timeout.
- The alarm is never cancelled after a success or an error: src/link_layer.c:103-104 and 211-212 only reset `alarmCount` and `alarmEnabled`. A SIGALRM still pending can then raise `alarmCount` after `llopen` or `llwrite` has reset it to 0, shortening the next call's retry budget. The model resets the counter and has no pending alarm.
- `llread` is an empty stub, and the second `readSU` at src/link_layer.c:487-490 has no body. `I_STATE` is unused. There is no I-frame receiver in the code, so none is modelled; `Destuff` exists only to state the round trip.
- The counters `errorCount` and `timeoutCount`, `statAnalysis`, the `showStatistics` argument and every `printf` are diagnostics and are left out.
- SuReceiver.ReadSU: a read that returns without storing an octet is not a separate result. `readSU` tests only for -1 (src/link_layer.c:356), so after such a read the switch at src/link_layer.c:364-471 runs again on the previous `currByte`, which is indeterminate before the first octet (src/link_layer.c:349). In the model's terms such a read is a `Got` of the previous octet, so the five values `AcceptedOnlyOnFrame` speaks of are values the switch saw, not necessarily five octets on the line: `7E 03`, an empty read, `00 7E` is seen as `7E 03 03 00 7E` and accepted as SET.
- SuReceiver.ReadSU: claims nothing about buf[0], nor about octets cleared on a resynchronisation. The memset at src/link_layer.c:372 clears only sizeof(int) octets, and the resync paths write buf[1] instead of buf[0].
- `readSU_default`, called by `llclose`, is not defined in the code. It is modelled as `readSU_OC` for DISC.
- `SU_C_RR` and `SU_C_REJ` are not defined in the code. They map the parity of the frame number to RR0/RR1 and REJ0/REJ1, as `I_C` does.
- `frameCount` is never incremented in the code, so `Link.Write` leaves it unchanged and every I frame carries the same control octet.
- `I_BUF_SIZE` is used without an argument at src/link_layer.c:142. The frame is built in a buffer of I_BUF_SIZE(bufSize) octets.
- LinkLayer.Link.constructor: the role global starts as the zero of `LinkLayerRole`, whose declaration is not part of this model. It is taken to be LlTx.
- LinkLayer.Link.OpenRx: the receiver's reply is finite. If it ends without SET, the model goes on and sends UA, as a return of 0 from readSU would. In the code the receiver has no alarm and keeps reading.
- `attempted` records a frame whenever the port is asked to send it, including writes that fail.
- Both headers use the include guard `GPU_MACROS_H`, and `xor_all` is declared with two different signatures. These are build problems and have no behaviour to model.
- The `unsigned int` counter `alarmCount` is an unbounded natural here. Each loop keeps it at most its limit, and the limit is below 2^32 (see LinkLayer.LimitConversion), so it never wraps.
- The `unsigned int` counter `retransmissionCount` is kept as an unbounded natural; its wrap-around modulo 2^32 is not modelled. The code never resets it (src/link_layer.c:26, 92, 201), so it accumulates across calls, and rejects are not bounded by the limit, so it can in principle exceed 2^32 - 1.

## Findings

The methods of `Link` and `BuildIFrame` follow the code as written. The corrected definitions, `FrameIntended` and `RetryCapped`, stand beside them with the intended property proved.

| source | as written | input that shows it | evidently intended | confidence | as-written member | corrected member |
|---|---|---|---|---|---|---|
| src/link_layer.c:168 | the BCC2 octet is stored without stuffing | payload 7E: BCC2 is 7E, so the frame is 7E 03 00 03 7D 5E 7E 7E with a flag one octet before the end | stuff BCC2 like the payload, so that flags occur only at the frame ends | high, not executed | IFrame.TrailerMimicsFlag | IFrame.IntendedFrameDelimited |
| src/link_layer.c:193-204 | a reject returns 0 without the alarm firing, so only retransmissionCount grows and alarmCount, which bounds the loop, does not | a receiver that answers REJ promptly every time: with limit 1 and k rejects before RR, llwrite writes the frame k + 1 times | bound every retransmission, timeout or reject, by nRetransmissions | medium, not executed | LinkLayer.RejectsEvadeLimit | LinkLayer.RejectsWithinLimit |
