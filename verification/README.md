# XMODEM/YMODEM transfer engine: a model and its proofs

This project models the transfer engine of the library in Dafny 4.11 and proves what it is for: that
the CRC is the remainder of polynomial division and notices the damage the protocol document promises
it notices, that sender and receiver hand a file over intact on a line that loses and damages messages,
and that a YMODEM session delivers the file, cut to its size, with its metadata.

`dafny verify dfyconfig.toml` checks the whole project.

## How the program is modelled

* **The code keeps its form.** The context, the RAM file and the CRC table are classes
  (`Modem.Modem`, `RamFile.RamFile`, `Crc16.Crc16Context`) whose methods write the line buffer, the file
  and the counters in place; the send loop, the receive loop, the tokeniser, the table builder and the
  CRC loop are `while` loops. Each method is proved against functions of its inputs, and the theorems
  are about those functions.
* **The line is an oracle.** `getchar` takes its readings from a script (`Modem.inp`); a reading is the
  bytes that came in before the timeout. A request for n bytes succeeds on a reading of exactly n bytes;
  any other reading is a timeout that may leave bytes behind. Behind the end of the script there is
  silence for ever. `putchar` appends to a trace (`Modem.sent`). A script is arbitrary, so a theorem
  about every script is about every behaviour of the line. There is no clock.
* **A run is told by its log.** For the receiver the log is what each round heard (`ReceiverLog.Event`),
  for the sender what each emission was answered with (`SenderLog.Answer`). Result, file contents and
  output are functions of the log, and `Receiver.Receive` and `Sender.SendDataBlocks` are proved to have
  exactly the log their script gives rise to, and to end exactly when it says so. What each entry of a
  log is in bytes, and what is sent for it, is proved apart from the definitions, in literal bytes
  (`ReceiverBytes`, `SenderBytes`, `FrameBytes`, and the last parts of `Handshake`, `YmodemTx`, `YmodemRx`
  and `BlockZero`).
* **The two-party system** (`Link`) is a step relation over the two logs. Its hypotheses about the line:
  an item (frame or EOT) arrives intact, arrives damaged in a way the checks notice, or is lost; no
  damage turns a block number into another number with its complement; other bytes and silences may come
  in at any time; replies may be lost or turn into anything but an ACK; EOT is not forged. On a *strict*
  line an ACK is heard only in the wait for it. On a *loose* line ACKs may be stale or forged as long as
  the two sides are fewer than a given number of blocks apart. The hypotheses are needed because ACKs carry no number
  and EOT is a single unprotected byte.
* Polynomials over GF(2) are sequences of booleans, the highest coefficient first; 16-bit words are
  `bv16`, the table builder's accumulator is `bv32`; 8-bit block numbers are taken modulo 256 explicitly.

| files | contents |
|---|---|
| `Gf2`, `Bytes`, `Crc16`, `PowersOfX`, `Detection` | division by the generator, words and bytes as bits, the table and the loop, the order of x, error detection |
| `Protocol`, `RamFile`, `Modem` | constants, modes and frames; the file in memory; the context and its setters |
| `ReceiverLog`, `Receiver`, `ReceiverRuns`, `ReceiverBytes` | the receiver's log, the receive loop, what holds of all its runs, its rounds in bytes |
| `SenderLog`, `Sender`, `SenderRuns`, `SenderBytes` | the sender's log, the send loop, what holds of all its runs, its answers in bytes |
| `FrameBytes` | numbers, complements, checksums, frames and modes in bytes |
| `Link`, `Agreement`, `LinkRuns`, `Transfer`, `Faults`, `Damage` | the two parties, when their results agree, runs that exist, the two loops together, exact fault tolerance, which damage is noticed |
| `Numerals`, `BlockZero`, `BlockZeroTx`, `BlockZeroRx` | printing and parsing numbers, block 0 and its round trip, the builder and the parser |
| `Handshake`, `YmodemTx`, `YmodemRx`, `Session` | the handshakes, both ends of a YMODEM session, the session theorem |

## Where to start

`Session.RunSession`, `Transfer.RunTransfer`, `Link.InStepSafety`, `Link.OneWayAgreement`,
`Agreement.AgreementIff`, `Link.PrefixSafety`, `Faults.ExactTolerance`, `Receiver.Receive` with `ReceiverRuns.AcceptedIffGenuine`,
`ReceiverBytes.RoundInBytes` and `ReceiverRuns.Outcome`, `Sender.SendDataBlocks` with `SenderRuns.OutputShape`
and `SenderRuns.Outcome`,
`Crc16.CrcIsRemainder`, `Detection.PairUnnoticedIff`, `BlockZero.RoundTripIff`.

## What is not as one would expect

* The file refuses an exact fit: a block is stored only if it is strictly smaller than the room left,
  and the ACK goes out before that is known (src/lmodem_buffer.c:22-33, src/lmodem_rx.c:124-137).
  `Link.OneWayAgreement` covers that receiver.
* A receiver that times out sends nothing (src/lmodem_rx.c:158-168); section 7.3.2 of the XMODEM/YMODEM
  Protocol Reference wants a NAK every time. The model follows the code.
* A repeated block is acknowledged without a look at its check, is not stored, and counts as a failure
  (src/lmodem_rx.c:258-275, 146-149): `Damage.DuplicateUnchecked`, `ReceiverLog.Extend`.
* A count from the sender means the same count from the receiver, but not the other way round. Once both
  sides are done, the results differ if and only if the wait in which the receiver took EOT ended without
  an ACK (`Agreement.AgreementIff`): the receiver is gone by then, so the sender returns -1 whatever it
  tries (`Agreement.UnansweredEndFails`). `LinkRuns.LastAnswerLost` gives such a run for every file.
* Block numbers of 8 bits keep blocks apart only within 256. On a loose line that lets the two sides get
  256 blocks apart, block 256 can be stored in the place of block 0 (`LinkRuns.NumbersComeRound`).
* In YMODEM with the checksum option the sender takes NAK for a start character although the transfer then
  uses CRC (src/lmodem_tx.c:90-102): `Sender.DecodePreambule`.
* The shortest line buffer that lmodem_set_line_buffer accepts holds a body, but no frame: sending needs
  one byte more (src/lmodem_init.c:37-54 against include/lmodem.h:13-15), and YMODEM with the 128-byte
  options a longer one altogether. `Protocol.FrameNeedsOneByteMore`.
* Two flipped bits are missed if and only if 32767 divides their distance (`Detection.PairUnnoticedIff`);
  no block is that long (`Detection.PairIsNoticed`).
* The formats of block 0 count the valid fields instead of naming them (src/lmodem_tx.c:482-520), so the
  fields come out as they went in if and only if they are a prefix of size, date, permission, serial
  (`BlockZero.SameFieldsIffPrefix`).
* A block 0 with a name and no field is read back only if its check bytes and everything behind them in
  the line buffer are NUL, because the search for the first field runs on into them
  (src/lmodem_rx.c:528-534): `BlockZero.RoundTripIff` says exactly when the round trip succeeds, and
  `BlockZero.ShortNameNotRead` that it never does for a name of one or two bytes without a field.
* "%d" prints sizes from 2^31 on as negative numbers; strtoul reads them back right
  (`Numerals.SignedRoundTrip`).
* A failed YMODEM reception still cuts or stretches the file to a valid size, because -1 carried unsigned
  is greater than zero (src/lmodem_rx.c:393-399): the file is left as stored if and only if the result is
  zero or the size is not valid, beyond the buffer, or the true one (`YmodemRx.YmodemReceive`). A session
  of which only block 0 gets through does it (`Session.FailureCutsFile`).
* Ten NAKs to block 0 do not stop the sender: eleven copies are sent, and the session goes on as if it had
  been acknowledged (src/lmodem_tx.c:316-336, 339-342): `YmodemTx.TenNaksGoOn`.
* A receiver whose transfer failed still asks for the next file (src/lmodem_rx.c:387-389):
  `Session.FailureCutsFile`.
* Silence can pass for an ACK: after an acknowledged block 0 its ACK stays in the variable that the
  end-of-batch wait looks at (src/lmodem_tx.c:354-366), so that wait ends at once if nothing comes in
  (`YmodemTx.StaleAckConcludes`). A wait without end needs a last byte that says nothing
  (`Handshake.BlockedOnNoise`).

## Model

| member | source | states |
|---|---|---|
| Crc16.Crc16Context.Init | src/crc16.c:3-26 | the table builder fills all 256 entries, each the eight shifts of its index, for any polynomial |
| Crc16.Crc16Context.BuildEntry | src/crc16.c:14-24 | eight shifts of the unmasked 32-bit accumulator leave the right entry in its low 16 bits |
| Crc16.TableDoesEightShifts | src/crc16.c:38-39 | one look-up with the entry does what eight single-bit shifts of register and byte do, for any polynomial |
| Crc16.Crc16Context.DoCalcul | src/crc16.c:28-45 | the table-driven loop computes the bit-serial CRC of the bytes, for any polynomial, from any initial value, with any final xor |
| Crc16.CrcIsRemainder | docs/ymodem.txt:1566-1593 | for every message the CRC is the remainder of M(x) * x^16 on division by x^16 + x^12 + x^5 + 1 |
| Gf2.RemainderZeroIffMultiple | docs/ymodem.txt:1567-1593 | the shift-register remainder is zero exactly for the products of the generator with some polynomial: the division is division |
| Gf2.CheckBitsAreTheRemainder | docs/ymodem.txt:1567-1593 | sixteen check bits make message and check a multiple of the generator exactly if they are the remainder |
| Detection.AcceptsIffMultiple | src/lmodem_rx.c:286-307 | the receiver's check passes exactly if data and check bytes together are a multiple of the generator |
| Detection.UnnoticedIffMultiple | src/lmodem_rx.c:286-307 | damage to an accepted block goes unnoticed exactly if the generator divides the pattern of flipped bits |
| Detection.OddDamageIsNoticed | docs/ymodem.txt:632-636 | every odd number of flipped bits in data and check bytes is rejected, in blocks of any length |
| Detection.BurstIsNoticed | docs/ymodem.txt:632-636 | every change confined to 16 consecutive bits, at any position, is rejected |
| Detection.SeventeenBitBurst | docs/ymodem.txt:632-637 | of the 17-bit bursts exactly one pattern is missed, the generator itself |
| Detection.LongBurst | docs/ymodem.txt:632-637 | of the longer bursts exactly one choice of the last sixteen bits is missed, whatever the other bits are |
| PowersOfX.OrderOfX | src/lmodem_rx.c:286-307 | x^n leaves the remainder 1 exactly for the multiples of 32767, proved by squaring and cofactors of 7, 31 and 151 |
| Detection.PairUnnoticedIff | docs/ymodem.txt:632-636 | two flipped bits are missed if and only if 32767 divides their distance |
| Detection.PairIsNoticed | src/lmodem_rx.c:286-307 | every double bit error in data and check bytes is rejected, for up to 4093 data bytes |
| Protocol.ChecksumNoticesOneByte | src/lmodem_rx.c:231-241 | the arithmetic checksum changes with every change of one byte |
| Protocol.NumbersDiffer | src/lmodem_rx.c:251-266 | block numbers less than 256 apart differ, across the wrap |
| Protocol.SidesAgree | src/lmodem_rx.c:212-219 | in modes that go together, for every block the sender builds, both sides pick the same check and the body is one the receiver asks for |
| Protocol.OptionsThatInteroperate | src/lmodem_tx.c:120-147 | exactly which options go together: all in YMODEM, in XMODEM equal ones and 128-byte blocks with CRC sent to a receiver of 1024-byte blocks |
| Protocol.FrameNeedsOneByteMore | src/lmodem_init.c:37-54 | in every XMODEM mode the longest frame is one byte longer than the line buffer has to be |
| FrameBytes.ComplementInvertsBits | src/lmodem_tx.c:259 | the complement of a block number has every one of its eight bits inverted |
| FrameBytes.HeaderSurvivesIff | src/lmodem_rx.c:251-261 | damage to the two header bytes leaves a number with its complement if and only if the same bits are flipped in both |
| FrameBytes.SpoiltHeader | src/lmodem_rx.c:251-270 | any other damage to the header makes the receiver refuse the block |
| FrameBytes.OneHeaderByte | src/lmodem_rx.c:251-270 | damage to one of the two header bytes only is such damage |
| FrameBytes.NumbersInTurn | docs/ymodem.txt:1335-1336 | numbers start at 1, go up by 1, and wrap from 255 to 0 |
| FrameBytes.ChecksumInTurn | docs/ymodem.txt:1341 | the checksum adds up the data bytes from zero and tosses the carry |
| FrameBytes.FrameInBytes | src/lmodem_tx.c:247-283 | start byte, number, 255 less the number, the data, then the CRC high byte first or the checksum, in literal bytes |
| FrameBytes.ItemsInBytes | src/lmodem_tx.c:239-283 | the items of a transfer are frames numbered from 1 on, modulo 256, then the byte 0x04 |
| FrameBytes.SenderModes | src/lmodem_tx.c:120-147 | block size, check and longest frame of every mode of the sender, in numbers |
| FrameBytes.ReceiverModes | src/lmodem_init.c:37-54 | check, longest body and 1024-byte blocks of every mode of the receiver, in numbers |
| RamFile.RamFile.Write | src/lmodem_buffer.c:17-38 | the data is appended as a whole if it is strictly smaller than the room left, and otherwise nothing changes |
| RamFile.RamFile.Read | src/lmodem_buffer.c:45-64 | the next unread bytes are copied in order, as many as asked for or left, and are unread no more; the rest of the target is untouched |
| RamFile.RamFile.SetWriteOffset | src/lmodem_buffer.c:67-81 | the file is cut to a size within the buffer; a larger size is refused |
| RamFile.RamFile.Init | src/lmodem_buffer.c:4-10 | a new file is empty |
| Modem.Modem.SetLineBuffer | src/lmodem_init.c:29-65 | the buffer is taken exactly if it holds the longest body of the mode; withCrc follows the mode either way |
| Modem.Modem.SetFileBuffer | src/lmodem_init.c:67-70 | the context gets an empty file over the buffer |
| Modem.Modem.SetFilename | src/lmodem_init.c:79-87 | the name is cut to the name buffer and marked valid; without a name buffer it is ignored |
| Modem.Modem.SetFilesize | src/lmodem_init.c:89-93 | the size is set and marked valid |
| Modem.Modem.CalculCrc | src/lmodem_rx.c:292-295 | high and low byte of the CRC of a part of the line buffer |
| Modem.Modem.CalculChksum | src/lmodem_rx.c:231-241 | the sum of a part of the line buffer modulo 256 |
| Receiver.CheckCrc | src/lmodem_rx.c:281-319 | accepts exactly if the bytes behind the data are the check bytes of the data, in the check the mode uses |
| Receiver.CheckBlockNoAndCrc | src/lmodem_rx.c:243-278 | accepts exactly the body built from the expected number and the data, else reports the previous number with its complement, else an error |
| Receiver.ReceiveBlock | src/lmodem_rx.c:204-229 | a block is read and classified as the log says; of an accepted block the data is in the line buffer |
| Receiver.AcceptBlock | src/lmodem_rx.c:122-145 | the ACK is sent first; then the data is stored in full, or the transfer is cancelled with CAN CAN and the file is unchanged |
| Receiver.RefuseBlock | src/lmodem_rx.c:122-155 | a refused block is answered with NAK, a repeated one with ACK; the tenth failure in a row cancels |
| Receiver.ReceiveRound | src/lmodem_rx.c:75-169 | one turn of the loop makes the log one event longer and replies, stores and counts what that event calls for |
| Receiver.Receive | src/lmodem_rx.c:54-172 | for every input: the log is the complete run of that input; result, bytes added to the file, and bytes sent are those of the run; the loop ends by (room left, retries left) |
| ReceiverRuns.AcceptedIffGenuine | src/lmodem_rx.c:243-319 | round k accepts data if and only if the line then brings a start byte and that data in a body with the next number modulo 256, its complement and a matching check |
| ReceiverRuns.PayloadFits | src/lmodem_buffer.c:17-38 | no run puts more in the file than there is room for, and stored blocks never fill it |
| ReceiverRuns.Outcome | src/lmodem_rx.c:82-168 | a run returns -1 exactly on a second CAN with no start byte or EOT since the first, on ten rounds in a row without progress, or on a block that does not fit; otherwise it ends on EOT and returns the number of bytes stored |
| ReceiverRuns.CancelsMean | src/lmodem_rx.c:106-114 | the CAN counter is positive exactly if some CAN has had no start byte or EOT since |
| ReceiverRuns.FailuresMean | src/lmodem_rx.c:146-168 | the retry counter reaches k exactly if the last k rounds made no progress |
| ReceiverRuns.RunIsShort | src/lmodem_rx.c:75-169 | every run takes at most 10 * (A + 1) rounds, where A stored blocks satisfy A <= (room - 1) / 128 |
| ReceiverRuns.RunIsUnique | src/lmodem_rx.c:75-169 | an input has one run only |
| ReceiverBytes.EventInBytes | src/lmodem_rx.c:79-118 | which readings are the end (0x04), a cancel (0x18), silence, noise, the previous block, or a damaged block, each in both directions |
| ReceiverBytes.RoundTakes | src/lmodem_rx.c:79-97 | how many readings a round takes |
| ReceiverBytes.RoundInBytes | src/lmodem_rx.c:79-118 | the k-th round of every input is the end exactly if it reads 0x04, a cancel exactly if it reads 0x18, silence exactly if no single byte comes, noise exactly for any other byte but 0x01 and 0x02 |
| ReceiverBytes.CountNeedsEnd | src/lmodem_rx.c:99-104 | a run that returns a count read 0x04 in its last round |
| ReceiverBytes.TwoCancelsEnd | src/lmodem_rx.c:106-114 | a live run that next reads 0x18 and 0x18 ends at the second one at the latest, and returns -1 |
| ReceiverBytes.RepliesInBytes | src/lmodem_rx.c:122-168 | what is sent in each round, in literal bytes: 0x06, 0x15 or nothing, and 0x18 0x18 behind it on the tenth failure or a block that does not fit |
| Sender.DecodePreambule | src/lmodem_tx.c:84-105 | NAK is taken exactly with the checksum option, in YMODEM too, and C exactly in the modes that use CRC |
| Sender.BuildFrame | src/lmodem_tx.c:247-283 | the line buffer holds the frame of the next block of the file, padded with SUB to the smallest block size; the file is read on by that much |
| Sender.BuildAndSendOneDataBlock | src/lmodem_tx.c:225-290 | the next block's frame, or EOT when the file is read, is sent and kept for another emission |
| Sender.ReemitPreviousBlock | src/lmodem_tx.c:292-295 | the kept bytes are sent again, unchanged |
| Sender.HandleAnswer | src/lmodem_tx.c:179-219 | what ACK, NAK, any other byte and silence do to the counters, and when each ends the transfer |
| Sender.SendRound | src/lmodem_tx.c:160-220 | one turn sends the first item not acknowledged yet and makes the log one answer longer |
| Sender.SendDataBlocks | src/lmodem_tx.c:107-223 | for every reply stream: the log is the complete run of it; result and output are those of the run; at most 10 * (N + 1) emissions and 100 * (N + 1) reads |
| SenderLog.ChunkAt | src/lmodem_tx.c:233-266 | the k-th block is cut from what is left of the file after k blocks |
| SenderRuns.RunIsShort | src/lmodem_tx.c:160-220 | every run has at most 10 * (N + 1) emissions for N blocks |
| SenderRuns.RunIsUnique | src/lmodem_tx.c:160-220 | a reply stream has one run only |
| SenderRuns.OutputShape | src/lmodem_tx.c:160-220 | for every reply stream the output is the first item one to ten times, then the second one to ten times and so on, byte-identical on repeats; all items but possibly the last one sent were acknowledged |
| SenderRuns.PaddingAtEnd | src/lmodem_tx.c:238-266 | the payloads together are the file followed by SUB bytes, at most 127 in 128-byte modes and 895 in 1024-byte modes |
| SenderRuns.PaddedLength | src/lmodem_tx.c:183-193 | the padded file starts with the file and is longer by at most that padding |
| SenderRuns.PaddedIsWhole | src/lmodem_tx.c:247-256 | the padded length is a multiple of 128 |
| SenderRuns.Outcome | src/lmodem_tx.c:179-219 | a run returns -1 exactly on ten answers in a row that are no ACK, or on an unknown answer behind another that is no ACK; otherwise it ends with the ACK of EOT and returns the length of the blocks |
| SenderRuns.MissesMean | src/lmodem_tx.c:196-219 | the retry counter reaches k exactly if none of the last k emissions was acknowledged |
| SenderBytes.AnswerInBytes | src/lmodem_tx.c:171-209 | the first byte within the attempts is the answer: an ACK exactly if it is 0x06, a NAK exactly if it is 0x15, for every byte and everything behind it |
| SenderBytes.NoAnswerInBytes | src/lmodem_tx.c:171-177 | as many failed attempts as there are make no answer |
| SenderBytes.UnknownAnswers | src/lmodem_tx.c:200-208 | the first unknown answer to an item is forgiven, one behind a miss is not, and two in a row end every transfer with -1 |
| SenderBytes.CancelInBytes | src/lmodem_rx.c:335-341 | a cancelling receiver sends 0x18 0x18 |
| SenderBytes.CancelStops | src/lmodem_tx.c:200-208 | a live transfer whose next answers are 0x18 and 0x18 ends at the second one at the latest, and returns -1 |
| Link.FrameRoundTrip | src/lmodem_rx.c:204-319 | in all modes that go together the receiver's check of a built frame recovers its payload if it is the next one, knows it if it is the previous one, and refuses it otherwise |
| Link.ForeignFrame | src/lmodem_rx.c:204-229 | in modes that do not go together every frame of a size they disagree on is refused |
| Link.ItemIsRound | src/lmodem_rx.c:83-104 | the k-th item after r accepted blocks is one round: the next block, the previous one or neither, modulo 256, or the end |
| Link.DeliveredInStep | src/lmodem_rx.c:251-266 | on a live strict line an item is the next one or a repeat of the last: the 8-bit numbers never confuse them |
| Link.InvariantHolds | src/lmodem_tx.c:160-220 | whatever the line does, both logs are live runs of what was heard, the payload is a prefix, and on a strict line the sides are in step |
| Link.PrefixSafety | src/lmodem_rx.c:75-169 | in every reachable state, even with stale or forged ACKs on a line that keeps the sides fewer than 256 blocks apart, the file is exactly the first blocks sent, in order |
| Link.InStepSafety | src/lmodem_rx.c:75-169 | on a strict line the receiver has taken as many items as were acknowledged or one more, and EOT is processed only with the complete file stored |
| Link.OneWayAgreement | src/lmodem_tx.c:179-209 | if the send loop returns a count, the receive loop returns the same count with the complete file stored, also when a receiver acknowledges a block it has no room for |
| Link.WrapConfuses | src/lmodem_rx.c:251-253 | a frame that comes to a receiver exactly 256 blocks behind is heard as the next block |
| Link.LineCarriesItems | src/lmodem_tx.c:160-177 | in every reachable state the items the line carried are what the sender has sent by its log, and one more while it waits |
| Link.AcknowledgedIsAck | src/lmodem_rx.c:122-123 | an ACK is on its way exactly when the receiver has just sent one |
| Agreement.UnansweredEndFails | src/lmodem_tx.c:171-219 | if the wait in which the receiver took EOT ends without an ACK, the sender returns -1, whatever follows |
| Agreement.AgreeUnlessOrphaned | src/lmodem_rx.c:99-104 | once both sides are done, their results differ exactly if the receiver has taken EOT and the sender has all blocks but not EOT acknowledged |
| Agreement.AgreementIff | src/lmodem_tx.c:171-219 | once both sides are done, their results agree if and only if no wait in which the receiver took EOT ended without an ACK |
| LinkRuns.Undisturbed | src/lmodem_tx.c:160-220 | every file that fits has a run of both parties that ends with both returning its padded length |
| LinkRuns.LastAnswerLost | src/lmodem_tx.c:211-219 | a witness for the disagreement, for every file that fits: the receiver returns the padded length with the complete file and the sender -1 |
| LinkRuns.NumbersComeRound | src/lmodem_rx.c:251-253 | a run of a loose line that lets the sides get 256 blocks apart, after which the file is not the first blocks sent: the bound is sharp |
| Transfer.RunTransfer | src/lmodem_tx.c:107-223 | the two methods, run on what a strict line brings: a count from the send loop is the count of the receive loop, and the receiver's file has grown by exactly the padded file; with the receiver done the results differ exactly for an orphaned sender; what both have sent is what the line carried |
| Transfer.StartsTogetherIff | src/lmodem_tx.c:84-105 | for one protocol, the sender takes the receiver's start character exactly if both use the same check |
| Transfer.StartCharacter | src/lmodem_rx.c:174-202 | a receiver asks with 0x15 for the checksum in XMODEM, with 0x43 otherwise |
| Transfer.StartsApart | src/lmodem_tx.c:69-75 | with different checks the sender answers 0x18 0x18 and returns -1 |
| Transfer.RunXmodem | src/lmodem_tx.c:43-81 | a whole XMODEM transfer, the sender hearing first the start character the receiver has sent: results, file and bytes sent as for the two loops |
| Faults.SenderSurvives | src/lmodem_tx.c:196-219 | with at most nine NAKs for each item the sender gets every item acknowledged |
| Faults.ReceiverSurvives | src/lmodem_rx.c:141-155 | with at most nine damaged copies of each item the receiver takes them all, and its replies are the NAKs and ACKs the sender hears |
| Faults.FewFaultsSurvived | src/lmodem_tx.c:196-219 | with at most nine damaged copies of each item both sides return the padded length, the whole file is stored, and the receiver's replies are exactly what the sender heard |
| Faults.ManyFaultsAbort | src/lmodem_rx.c:146-155 | ten damaged copies of one item make both sides return -1 |
| Faults.ExactTolerance | src/lmodem_tx.c:196-219 | both sides return the padded length if every block and EOT suffer at most nine damaged copies, and both return -1 otherwise |
| Damage.ExpectedBlock | src/lmodem_rx.c:243-319 | a body with the expected number and its complement is accepted exactly if its check is right |
| Damage.DuplicateUnchecked | src/lmodem_rx.c:256-275 | a body with the previous number and its complement is a duplicate whatever its data and check bytes |
| Damage.SpoiltNumber | src/lmodem_rx.c:251-270 | a number without its complement is refused whatever follows |
| Damage.NoticedIsDamaged | src/lmodem_rx.c:281-319 | an expected frame with an odd number of flipped bits, a burst of up to 16 bits or two flipped bits in data and CRC (one changed byte in a checksum block) is refused like any damaged copy |
| Numerals.SignedRoundTrip | src/lmodem_rx.c:599-615 | a size printed with "%d" is read back by strtoul in base 10, for every 32-bit value |
| Numerals.OctalRoundTrip | src/lmodem_rx.c:599-615 | a number printed with "%o" is read back in base 8, for every 32-bit value |
| Numerals.DigitsValue | src/lmodem_tx.c:439-445 | the printed digits denote the number |
| Numerals.LeadingDigit | src/lmodem_rx.c:599-615 | the value of a numeral counts each digit by its place |
| Numerals.MoreBehindNumber | src/lmodem_rx.c:605-613 | a number with something else behind it is not a valid field |
| BlockZero.ParseJoined | src/lmodem_rx.c:537-594 | up to four words joined by blanks and ended by NULs are read back one by one, each into its field |
| BlockZero.Block0RoundTrip | src/lmodem_tx.c:448-548 | whatever the line buffer holds behind it, a built block 0 with a field decodes to the name and the counted fields, the permission without bit 0x8000 |
| BlockZero.RoundTripIff | src/lmodem_rx.c:494-597 | with anything behind the received body, the round trip succeeds if and only if the name is not empty and fits the receiver's name buffer, and there is a field, or the CRC of the block is zero and only NULs follow |
| BlockZero.ShortNameNotRead | src/lmodem_rx.c:528-534 | a block 0 with a name of one or two bytes and no field is never read back, whatever the line buffer holds |
| BlockZero.SentIfItFits | src/lmodem_tx.c:464-538 | what the builder sends is name, NUL, fields and NULs, whatever the length of the line buffer, if that fits the block |
| BlockZero.SameFieldsIffPrefix | src/lmodem_tx.c:482-520 | the valid fields survive if and only if they are a prefix of size, date, permission, serial |
| BlockZero.NoNameNoFile | src/lmodem_rx.c:502-507 | a block 0 that begins with a NUL is no file |
| BlockZero.NulsSkipped | src/lmodem_rx.c:532-535 | all NULs behind the name are skipped, and nothing else |
| BlockZero.LongNameIsCut | src/lmodem_rx.c:510-512 | the decoded name is the sent one, cut to the name buffer less one |
| BlockZero.NotANumber | src/lmodem_rx.c:586-591 | a word that is no number ends the parse with a failure |
| BlockZero.FieldsInOrder | src/lmodem_rx.c:548-583 | which word sets which field, in which base, and where the fields end |
| BlockZero.ClippedIsLongest | src/lmodem_tx.c:505-519 | snprintf leaves the longest start of the text that the room takes |
| BlockZero.Block0FrameLength | src/lmodem_tx.c:523-544 | a block 0 is a frame of 133 bytes exactly if name and text are short, of 1029 bytes otherwise, with the header 00 FF |
| BlockZero.Figure6Text | docs/ymodem.txt:1135-1142 | the fields of the file of Figure 6 are printed as the document shows them |
| BlockZero.Figure6Frame | docs/ymodem.txt:1135-1146 | block 0 of that file is the block of Figure 6, byte for byte up to the check bytes |
| BlockZeroTx.FormatMetaData | src/lmodem_tx.c:477-520 | the number of valid fields picks the format; the text is the joined fields |
| BlockZeroTx.PutName | src/lmodem_tx.c:464-469 | the name is copied behind the header as far as the line buffer goes, NULs behind it, and its length is found |
| BlockZeroTx.PutText | src/lmodem_tx.c:500-520 | the text is written as far as its room goes, ended by a NUL; its full length is returned |
| BlockZeroTx.BuildAndSendBlock0 | src/lmodem_tx.c:448-548 | with a name, the frame of block 0, clipped where it does not fit, in the block size its full text asks for is sent and kept; without, nothing is sent |
| BlockZeroTx.SendEndOfBatch | src/lmodem_tx.c:550-562 | the frame of an all-NUL block 0 is sent and kept |
| BlockZeroTx.EndOfBatchInBytes | src/lmodem_tx.c:550-562 | the end of the batch is 01 00 FF and 130 NULs: its CRC is zero |
| BlockZeroRx.GetNextMetaDataString | src/lmodem_rx.c:617-640 | the next word up to a blank or NUL, the cursor behind it; its separator and nothing else in the line buffer is overwritten |
| BlockZeroRx.GetMetaData | src/lmodem_rx.c:520-597 | the tokeniser over the line buffer computes the field parse of the bytes it started on, although it overwrites them |
| BlockZeroRx.DecodeBlock0 | src/lmodem_rx.c:494-518 | name and fields of the context are those the bytes of the line buffer decode to |
| Handshake.WaitReception | src/lmodem_tx.c:410-437 | the first byte within ten attempts |
| Handshake.WaitReceptionOf | src/lmodem_tx.c:385-408 | a given byte within ten attempts, other bytes dropped |
| Handshake.SettleHandshake | src/lmodem_tx.c:314-336 | the answer that ends the wait, and one more copy of the block for each NAK, or for each silence after one |
| Handshake.CatchInBytes | src/lmodem_tx.c:410-437 | a byte behind fewer than ten failed attempts is caught, and none behind ten |
| Handshake.AwaitInBytes | src/lmodem_tx.c:385-408 | a given byte is found behind fewer than ten other readings, and not behind ten |
| Handshake.NaksThenAnswer | src/lmodem_tx.c:314-336 | up to nine NAKs are each answered by one copy of the block; then 0x06 acknowledges and 0x18 cancels |
| Handshake.TenNaksGiveUp | src/lmodem_tx.c:316-336 | the tenth NAK gives up after ten copies |
| Handshake.NoiseIsDropped | src/lmodem_tx.c:319-335 | any other byte changes nothing but what silence then repeats |
| Handshake.SilenceRepeats | src/lmodem_tx.c:410-437 | ten failed attempts repeat the last byte heard |
| Handshake.SilenceBlocks | src/lmodem_tx.c:316-336 | silence for ever behind a byte that says nothing is a wait without end |
| Handshake.ResendsAreFew | src/lmodem_tx.c:316-336 | no wait sends its block more than ten times again |
| Handshake.BlockedOnNoise | src/lmodem_tx.c:316-336 | a wait that never ends has heard the whole script, and its last byte is none of ACK, NAK, CAN |
| YmodemTx.StaleAckConcludes | src/lmodem_tx.c:352-374 | after an acknowledged block 0, silence in the end-of-batch wait is taken for the ACK |
| YmodemTx.EmitXmodem | src/lmodem_tx.c:43-81 | nothing is sent without a start character, CAN CAN after one of another mode, else the data blocks |
| YmodemTx.YmodemEmit | src/lmodem_tx.c:297-383 | for every input: result, line consumed and bytes sent of the whole sending session, in terms of its handshakes and the log of its data transfer |
| YmodemTx.NaksRepeatBlock0 | src/lmodem_tx.c:309-336 | f NAKs put exactly f + 1 copies of block 0 on the line; then an ACK lets the session go on and a CAN does not |
| YmodemTx.NaksWithoutName | src/lmodem_tx.c:312-336 | without a name nothing is sent for block 0, but each NAK gets the cleared line buffer, 00 00 FF and NULs, as far as was sent last |
| YmodemTx.TenNaksGoOn | src/lmodem_tx.c:316-342 | ten NAKs: eleven copies of block 0, and the session goes on |
| YmodemTx.CancelledAtBlock0 | src/lmodem_tx.c:326-329 | a CAN in answer to block 0: -1, and nothing is sent behind block 0 and its copies |
| YmodemTx.NoReceiver | src/lmodem_tx.c:309-311 | ten readings without a 'C': -1, and nothing is sent |
| YmodemTx.NaksRepeatEnd | src/lmodem_tx.c:352-378 | f NAKs put exactly f + 1 copies of the end of the batch on the line; a CAN in answer turns the result to -1 |
| YmodemTx.NoTransfer | src/lmodem_tx.c:50-64 | no start character behind block 0: zero, and the end of the batch goes out at once |
| YmodemTx.TenNaksConclude | src/lmodem_tx.c:352-378 | ten NAKs to the end of the batch: eleven copies of it, and the result stays |
| YmodemTx.StartCharacters | src/lmodem_tx.c:84-105 | a start character is taken exactly if it is 0x15 with the checksum option, or 0x43 in a mode with CRC |
| YmodemTx.ForeignTransfer | src/lmodem_tx.c:69-75 | a start character of another mode: CAN CAN, the end of the batch, and -1 |
| YmodemRx.ReceiveBlock0 | src/lmodem_rx.c:404-439 | bodies are checked and answered until one is block 0; the tenth that is not cancels; silence is neither answered nor counted |
| YmodemRx.BlockNextFile | src/lmodem_rx.c:441-482 | after a file an empty name is acknowledged and another file cancelled; a byte that starts no block is answered from byte 2 of the line buffer |
| YmodemRx.YmodemReceive | src/lmodem_rx.c:343-402 | for every input: result, metadata, bytes sent, and the file with its final cut, of the whole receiving session; exactly when the cut leaves the file as stored |
| YmodemRx.SpoiltThenBlock0 | src/lmodem_rx.c:414-436 | up to nine spoilt bodies are answered with 0x15 each, and block 0 behind them is taken and answered with 0x06 |
| YmodemRx.TenSpoiltCancel | src/lmodem_rx.c:425-433 | the tenth spoilt body cancels, after ten NAKs |
| YmodemRx.FailedReadDropped | src/lmodem_rx.c:414-418 | a failed read of block 0 is neither answered nor counted, and silence blocks |
| YmodemRx.OpenInBytes | src/lmodem_rx.c:356-379 | 0x01 and 0x02 open a session; any other byte, or ten failed attempts, end it without an answer |
| YmodemRx.NextFileInBytes | src/lmodem_rx.c:450-479 | behind a file, a block whose byte 2 is NUL is answered with 0x06, and any other with 0x18 0x18 |
| YmodemRx.BrokenNextFile | src/lmodem_rx.c:450-466 | behind a file, a body of another length is one more failed attempt |
| YmodemRx.NoiseForNextFile | src/lmodem_rx.c:450-479 | behind a file, a byte that starts no block is answered from byte 2 of the line buffer |
| Session.EmptyBatch | src/lmodem_rx.c:381-391 | a session that opens with the end of the batch returns -1, stores nothing, and sends 0x43 and 0x06 |
| Session.SenderSession | src/lmodem_tx.c:297-383 | with loss-free handshakes and at most nine damaged copies of each item the sender returns the padded length and has sent block 0, the items, the end of the batch |
| Session.ReceiverSession | src/lmodem_rx.c:343-402 | then the receiver returns the padded length, has the padded file and the metadata, and its output is exactly the script the sender heard |
| Session.FailureCutsFile | src/lmodem_rx.c:393-399 | a session of which only block 0 gets through returns -1, stores nothing, leaves the file with the size of block 0, and sends 'C', ACK, 'C', CAN CAN, 'C' |
| Session.EveryCopySent | src/lmodem_tx.c:160-220 | the sender's output has one copy of an item for each damaged one the receiver heard, and one more |
| Session.RunSession | src/lmodem_rx.c:343-402 | the whole session: both sides return the padded length, the receiver's file is exactly the sent file, its metadata are those sent (permission without bit 0x8000), and each side has sent what the other one heard |

## Left out

- Real time: a timeout is a failed reading; there is no clock and no delay.
- tools/, tests/ and the build files; the DBG tracing; the callback set-up of src/lmodem_init.c:19-27.
- lmodem_emit and lmodem_receive (src/lmodem_tx.c:19-41, src/lmodem_rx.c:30-51): they only pick the protocol, which the model keeps as a field of the context.
- The metadata getters and the setters of date, permission and serial number: one branch each, like the setter of the size.
- Integer widths beyond the protocol's: buffer and file sizes are taken to be below 2^31, so that the 32-bit offsets and counts do not wrap; the -1 carried in an unsigned variable is modelled where the code compares it.
- Crc16.Crc16Context.DoCalcul: takes an offset into the line buffer where the C code takes a pointer.
- Session.RunSession: damaged or silent lines during the block 0 and end-of-batch handshakes are not part of the theorem; YmodemTx.YmodemEmit and YmodemRx.YmodemReceive specify those sessions too, and report a script that ends in a wait without a bound as blocked.
- Session.RunSession: the file is not empty, and the receiver starts with an empty file.
- BlockZeroTx.BuildAndSendBlock0: the store of a terminator one byte behind the line buffer (src/lmodem_tx.c:467) is not modelled, and with fields a name is required to leave their room not negative (`BlockZero.FieldsHaveRoom`), because a negative one is handed to snprintf as a huge size and the C code then writes behind the line buffer.
- BlockZeroTx.BuildAndSendBlock0: the line buffer is required to have at least LYMODEM_BUFFER_MIN_SIZE bytes (include/lmodem.h:16), and Sender.Ready asks for the other sizes of include/lmodem.h:13-15, one byte more than lmodem_set_line_buffer checks.
- BlockZeroRx.GetMetaData: the C code's end pointer lies behind the line buffer by the length of what precedes it (src/lmodem_rx.c:530); the model ends at the line buffer, behind which the C code would read memory that is not its own.
- BlockZero.RoundTripIff: ends at the line buffer, like BlockZeroRx.GetMetaData.
- Numerals.SignedRoundTrip: strtoul is modelled with a 64-bit unsigned long and the C locale.
- RamFile.RamFile.Read: a read offset beyond the write offset, possible after a cut, is excluded, because the C code would then copy a negative number of bytes.
- Multi-file batches and YMODEM-g: the library does not have them.
