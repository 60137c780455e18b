/**
 A whole YMODEM session: lymodem_emit and lymodem_receive on a line without losses in the handshakes
 and with at most nine damaged copies of each item of the data transfer.
 */
module Session {
  import opened Bytes
  import opened Crc16
  import opened Protocol
  import opened Modem
  import opened BlockZero
  import opened BlockZeroTx
  import opened Handshake
  import opened Link
  import opened Faults
  import opened Sender
  import opened Transfer
  import Receiver
  import RL = ReceiverLog
  import RR = ReceiverRuns
  import opened ReceiverBytes
  import SL = SenderLog
  import SR = SenderRuns
  import Tx = YmodemTx
  import Rx = YmodemRx

  /** What the sender hears: the start characters and answers of the handshakes around the transfer. */
  function TxSession(copies: seq<seq<Copy>>, more: seq<Reading>): seq<Reading> {
    [[CHAR_C], [ACK], [CHAR_C]] + (TxScript(copies) + ([[CHAR_C], [ACK]] + more))
  }

  /** What the receiver hears: block 0, the items with their damaged copies, the end of the batch. */
  function RxSession(p: Setting, block0: seq<byte>, copies: seq<seq<Copy>>, more: seq<Reading>): seq<Reading>
    requires p.Sized() && block0 != []
  {
    Readings(block0) + (RxScript(p, copies) + (Readings(END_OF_BATCH) + more))
  }

  ghost predicate Tolerable(p: Setting, copies: seq<seq<Copy>>) {
    p.Valid() && p.txCfg.protocol.Ymodem? && p.rxCfg.protocol.Ymodem? && p.blocks != [] && AreFaults(p, copies) &&
    |copies| == |p.blocks| + 1 && FewFaults(copies)
  }

  // --------------------------------------------------------------------- the sender's part

  lemma HearFirst(b: byte, rest: seq<Reading>)
    ensures Catch([[b]] + rest, 10) == Caught(true, b, rest)
    ensures Await([[b]] + rest, b, 10) == Awaited(true, rest)
    ensures b == ACK ==> forall last :: Settle([[b]] + rest, last, 0) == Settled(Acked, 0, ACK, rest)
  {
    assert ([[b]] + rest)[0] == [b] && ([[b]] + rest)[1..] == rest;
  }

  lemma AnnouncedAtOnce(block0: seq<seq<byte>>, kept: seq<byte>, after: seq<Reading>)
    ensures Tx.Announce(block0, kept, [[CHAR_C], [ACK], [CHAR_C]] + after) ==
            Tx.Stage(-1, true, false, ACK, [[CHAR_C]] + after, block0)
  {
    var rest := [[CHAR_C]] + after;
    assert [[CHAR_C], [ACK], [CHAR_C]] + after == [[CHAR_C]] + ([[ACK]] + rest);
    HearFirst(CHAR_C, [[ACK]] + rest);
    HearFirst(ACK, rest);
    assert block0 + Repeat(kept, 0) == block0;
  }

  lemma ClosedAtOnce(r: int, last: byte, more: seq<Reading>)
    requires r != 0
    ensures Tx.Close(r, last, [[CHAR_C], [ACK]] + more) == Tx.Stage(r, true, false, ACK, more, [END_OF_BATCH])
  {
    hide Frame;
    assert [[CHAR_C], [ACK]] + more == [[CHAR_C]] + ([[ACK]] + more);
    HearFirst(CHAR_C, [[ACK]] + more);
    HearFirst(ACK, more);
    assert [END_OF_BATCH] + Repeat(END_OF_BATCH, 0) == [END_OF_BATCH];
  }

  lemma FileNotEmpty(p: Setting)
    requires p.Sized() && p.blocks != []
    ensures |SL.Concat(p.blocks)| > 0
  {
  }

  lemma TransferSent(p: Setting, copies: seq<seq<Copy>>, after: seq<Reading>, log: SL.Answers)
    requires Tolerable(p, copies)
    requires Tx.IsTransfer(p.txCfg, p.blocks, [[CHAR_C]] + (TxScript(copies) + after), log)
    ensures Tx.Transfer(p.txCfg, p.blocks, [[CHAR_C]] + (TxScript(copies) + after), log) ==
            Tx.Stage(|SL.Concat(p.blocks)|, true, false, 0, after, SL.Emitted(p.txCfg, p.blocks, TxLog(copies)))
    ensures log == TxLog(copies) && |SL.Concat(p.blocks)| > 0
  {
    hide Catch, SL.Concat, SL.Emitted, SL.Done, SL.Acks, SL.Misses, TxScript, TxLog, AreFaults;
    HearFirst(CHAR_C, TxScript(copies) + after);
    FileNotEmpty(p);
    SenderSurvives(p, copies);
    SenderHistoryIsRun(p, TxScript(copies), TxLog(copies), after, log);
  }

  /** The sender returns the padded length and has sent block 0, the items and the end of the batch. */
  lemma SenderSession(p: Setting, fd: FileData, copies: seq<seq<Copy>>, more: seq<Reading>, n: nat, blkSize: nat,
                      log: SL.Answers)
    requires Tolerable(p, copies) && WellFormed(fd) && FitsBlock(fd) && fd.filenameValid && Tx.Sendable(fd, n)
    requires var a := Tx.First(fd, n, blkSize, TxSession(copies, more));
             a.goOn ==> Tx.IsTransfer(p.txCfg, p.blocks, a.rest, log)
    ensures var s := Tx.Session(p.txCfg, fd, n, blkSize, p.blocks, TxSession(copies, more), log);
            s.r == |SL.Concat(p.blocks)| && !s.blocked && s.rest == more &&
            s.out == [Frame(true, 0, Block0Data(fd))] + SL.Emitted(p.txCfg, p.blocks, TxLog(copies)) + [END_OF_BATCH]
  {
    hide Tx.FirstKept, Tx.Announce, Tx.Transfer, Tx.Close, Tx.IsTransfer, SL.Concat, SL.Emitted, Frame, WellFormed,
      FitsBlock, TxScript, Block0Data, Tolerable;
    var after := [[CHAR_C], [ACK]] + more;
    SentIfItFits(fd, n);
    AnnouncedAtOnce(Tx.Block0Of(fd, n), Tx.FirstKept(fd, n, blkSize), TxScript(copies) + after);
    TransferSent(p, copies, after, log);
    ClosedAtOnce(|SL.Concat(p.blocks)|, ACK, more);
  }

  /** The emissions, counted: every item as often as it was damaged, and once more. */
  function Counts(copies: seq<seq<Copy>>): (counts: seq<nat>)
    ensures |counts| == |copies|
  {
    seq(|copies|, i requires 0 <= i < |copies| => |copies[i]| + 1)
  }

  lemma {:induction false} NaksRepeatItem(p: Setting, tx: SL.Answers, f: nat)
    requires p.Sized()
    ensures SL.Acks(tx + Repeat(SL.Nak, f)) == SL.Acks(tx)
    ensures SL.Emitted(p.txCfg, p.blocks, tx + Repeat(SL.Nak, f)) ==
            SL.Emitted(p.txCfg, p.blocks, tx) + Repeat(SL.Item(p.txCfg, p.blocks, SL.Acks(tx)), f)
  {
    hide SL.Acks, SL.Misses, SL.Emitted, SL.Item, SL.Done;
    var item := SL.Item(p.txCfg, p.blocks, SL.Acks(tx));
    if f == 0 {
      assert tx + Repeat(SL.Nak, 0) == tx;
      assert SL.Emitted(p.txCfg, p.blocks, tx) + Repeat(item, 0) == SL.Emitted(p.txCfg, p.blocks, tx);
    } else {
      NaksRepeatItem(p, tx, f - 1);
      var l := tx + Repeat(SL.Nak, f - 1);
      SL.Extend(|p.blocks|, l, SL.Nak);
      SL.EmittedExtends(p.txCfg, p.blocks, l, SL.Nak);
      assert l + [SL.Nak] == tx + Repeat(SL.Nak, f);
      assert Repeat(item, f - 1) + [item] == Repeat(item, f);
    }
  }

  /** What the sender puts on the line is what the receiver hears, copy by copy. */
  lemma {:induction false} EveryCopySent(p: Setting, copies: seq<seq<Copy>>)
    requires p.Sized()
    ensures SL.Acks(TxLog(copies)) == |copies|
    ensures SL.Emitted(p.txCfg, p.blocks, TxLog(copies)) == SR.Repeated(p.txCfg, p.blocks, Counts(copies))
    decreases |copies|
  {
    hide SL.Acks, SL.Emitted, SL.Item;
    if copies == [] {
      SR.NothingEmitted(p.txCfg, p.blocks);
    } else {
      var k := |copies| - 1;
      EveryCopySent(p, copies[..k]);
      ItemSent(p, TxLog(copies[..k]), |copies[k]|);
      assert Counts(copies)[..k] == Counts(copies[..k]);
    }
  }

  lemma ItemSent(p: Setting, tx: SL.Answers, f: nat)
    requires p.Sized()
    ensures var l := tx + (Repeat(SL.Nak, f) + [SL.Ack]);
            SL.Acks(l) == SL.Acks(tx) + 1 &&
            SL.Emitted(p.txCfg, p.blocks, l) ==
            SL.Emitted(p.txCfg, p.blocks, tx) + Repeat(SL.Item(p.txCfg, p.blocks, SL.Acks(tx)), f + 1)
  {
    hide SL.Acks, SL.Misses, SL.Emitted, SL.Item, SL.Done;
    NaksRepeatItem(p, tx, f);
    var l, item := tx + Repeat(SL.Nak, f), SL.Item(p.txCfg, p.blocks, SL.Acks(tx));
    SL.Extend(|p.blocks|, l, SL.Ack);
    SL.EmittedExtends(p.txCfg, p.blocks, l, SL.Ack);
    assert l + [SL.Ack] == tx + (Repeat(SL.Nak, f) + [SL.Ack]);
    assert Repeat(item, f) + [item] == Repeat(item, f + 1);
  }

  // ------------------------------------------------------------------- the receiver's part

  lemma HearFrame(block0: seq<byte>, start: byte, rest: seq<Reading>)
    requires |block0| > 1 && block0[0] == start
    ensures Catch(Readings(block0) + rest, 10) == Caught(true, start, [block0[1..]] + rest)
    ensures (Readings(block0) + rest)[0] == [start] && (Readings(block0) + rest)[1..] == [block0[1..]] + rest
  {
    var inp := Readings(block0) + rest;
    assert inp[0] == block0[..1] == [start] && inp[1..] == [block0[1..]] + rest;
  }

  /** Block 0, intact, is taken at once. */
  lemma OpenedAtOnce(cfg: Config, data: seq<byte>, rest: seq<Reading>)
    requires cfg.protocol.Ymodem? && IsBlockSize(|data|)
    ensures Rx.Open(cfg, Readings(Frame(true, 0, data)) + rest) ==
            Rx.Opening(Receiver.RecvOk, false, Body(true, 0, data), rest, [[ACK]])
  {
    hide Catch, CheckBytes;
    var frame, body := Frame(true, 0, data), Body(true, 0, data);
    assert frame[1..] == body;
    HearFrame(frame, frame[0], rest);
    DataOfBody(true, 0, data);
    var inp := [body] + rest;
    assert inp[0] == body && inp[1..] == rest;
    assert Receiver.Classify(cfg, 255, |data|, body) == Receiver.RecvOk;
  }

  lemma MetaDataRead(fd: FileData, clean: FileData, buf: seq<byte>, rest: seq<Reading>)
    requires WellFormed(fd) && FitsBlock(fd) && FieldCount(fd) >= 1 && 1028 <= |buf|
    requires fd.filename != [] && |fd.filename| < clean.filenameSize
    ensures Rx.Opened(Rx.Opening(Receiver.RecvOk, false, Body(true, 0, Block0Data(fd)), rest, [[ACK]]), clean, buf) ==
            Decoded(true, Sent(fd, clean.filenameSize))
  {
    hide Decode, Block0Data, Sent, CheckBytes, WellFormed, FitsBlock, FieldCount;
    var data := Block0Data(fd);
    var check, tail := CheckBytes(true, data), buf[|Body(true, 0, data)|..];
    assert Body(true, 0, data)[2..] + tail == data + (check + tail);
    Block0RoundTrip(fd, clean.filenameSize, check + tail);
  }

  lemma EndOfBatchHeard(more: seq<Reading>, stale: byte)
    ensures Rx.NextFile(Readings(END_OF_BATCH) + more, 10, stale) == Rx.Next([[ACK]], more)
  {
    hide CheckBytes, Catch;
    var body := Body(true, 0, NoFile());
    assert END_OF_BATCH[1..] == body && body[2] == NoFile()[0] == 0 && |body| == 132;
    HearFrame(END_OF_BATCH, SOH, more);
    assert ([body] + more)[0] == body && ([body] + more)[1..] == more;
  }

  lemma TransferReceived(p: Setting, copies: seq<seq<Copy>>, after: seq<Reading>, log: RL.Log)
    requires Tolerable(p, copies) && Fits(p) && ReceiverRan(p, RxScript(p, copies) + after, log)
    ensures RL.Result(p.room, log) == |SL.Concat(p.blocks)| && RL.Stored(p.room, log) == SL.Concat(p.blocks)
    ensures RL.Replies(p.room, log) == TxScript(copies)
    ensures RL.HearRounds(p.rxCfg, RxScript(p, copies) + after, |log|).rest == after
  {
    hide SL.Concat, RL.Payload, RL.Failures, RL.Ended, RL.Overflows, RL.Replies, RL.Accepted, TxScript, RxLog,
      AreFaults, Fits, ReceiverRan;
    ReceiverSurvives(p, copies);
    ReceiverHistoryIsRun(p, RxScript(p, copies), RxLog(p, copies), after, log);
    LastIsIntact(p, copies);
  }

  /**
   The receiver returns the padded length, has stored the padded file and knows the metadata; what it
   has sent is what the sender hears.
   */
  lemma {:induction false} ReceiverSession(p: Setting, fd: FileData, clean: FileData, copies: seq<seq<Copy>>,
                                           more: seq<Reading>, buf: seq<byte>, log: RL.Log, stale: byte)
    requires Tolerable(p, copies) && Fits(p) && WellFormed(fd) && FitsBlock(fd) && FieldCount(fd) >= 1
    requires fd.filename != [] && |fd.filename| < clean.filenameSize && 1028 <= |buf|
    requires var inp := RxSession(p, Frame(true, 0, Block0Data(fd)), copies, more);
             Rx.IsTransfer(p.rxCfg, p.room, clean, inp, buf, log)
    ensures var inp := RxSession(p, Frame(true, 0, Block0Data(fd)), copies, more);
            var s := Rx.Session(p.rxCfg, p.room, clean, inp, buf, log, stale);
            s.r == |SL.Concat(p.blocks)| && !s.blocked && s.rest == more && s.fd == Sent(fd, clean.filenameSize) &&
            s.stored == SL.Concat(p.blocks) && s.out == TxSession(copies, [])
  {
    hide Rx.Open, Rx.NextFile, Rx.Opened, SL.Concat, RL.Result, RL.Stored, RL.Replies, RL.HearRounds, RL.IsRun,
      WellFormed, FitsBlock, FieldCount, Sent, Fits, Frame, Readings, TxScript, RxScript, Block0Data;
    var block0 := Frame(true, 0, Block0Data(fd));
    var after := Readings(END_OF_BATCH) + more;
    OpenedAtOnce(p.rxCfg, Block0Data(fd), RxScript(p, copies) + after);
    MetaDataRead(fd, clean, buf, RxScript(p, copies) + after);
    TransferReceived(p, copies, after, log);
    EndOfBatchHeard(more, stale);
  }

  // --------------------------------------------------------------------- an empty batch

  /** A session that opens with the end of the batch: no file, -1, and an ACK for the block. */
  lemma EmptyBatch(cfg: Config, room: int, clean: FileData, rest: seq<Reading>, buf: seq<byte>, log: RL.Log,
                   stale: byte)
    requires cfg.protocol.Ymodem? && clean.filenameSize > 0 && 1028 <= |buf|
    ensures Rx.Session(cfg, room, clean, Readings(END_OF_BATCH) + rest, buf, log, stale) ==
            Rx.Reception(-1, false, NO_FILE_DATA.(filenameSize := clean.filenameSize), [], rest, [[0x43], [0x06]])
  {
    hide Rx.Open, Decode, Readings, CheckBytes, Rx.NextFile;
    OpenedAtOnce(cfg, NoFile(), rest);
    var body := Body(true, 0, NoFile());
    var s := body[2..] + buf[|body|..];
    assert s[0] == NoFile()[0] == 0;
    NoNameNoFile(s, clean.filenameSize);
  }

  // ------------------------------------------------------------- a failure that cuts the file

  lemma {:induction false} NothingButSilence(cfg: Config, room: int, n: nat)
    requires n <= 10
    ensures var h := RL.HearRounds(cfg, [], n);
            h.rest == [] && RL.Payload(h.log) == [] && RL.Failures(h.log) == n && RL.Cancels(h.log) == 0 &&
            (n > 0 ==> RL.Last(h.log) == RL.Silence) && RL.Ended(room, h.log) == (n == 10) &&
            (forall j: nat :: j < n ==> !RL.Ended(room, h.log[..j])) &&
            RL.Replies(room, h.log) == if n == 10 then [[0x18, 0x18]] else []
  {
    hide RL.Hear, RL.Accepted, RL.Ended, RL.Replies, RL.Failures, RL.Payload, RL.Cancels, RL.LastReplies;
    if n == 0 {
      NothingYet(room);
    } else {
      NothingButSilence(cfg, room, n - 1);
      var before := RL.HearRounds(cfg, [], n - 1).log;
      RL.HearNothing(cfg, RL.Accepted(before), []);
      RL.Extend(room, before, RL.Silence);
      RepliesInBytes(room, before, RL.Silence);
      assert before[..n - 1] == before;
    }
  }

  lemma NothingYet(room: int)
    ensures RL.Payload([]) == [] && RL.Failures([]) == RL.Cancels([]) == 0 && !RL.Ended(room, []) &&
            RL.Replies(room, []) == []
  {
  }

  lemma SilentTransfer(cfg: Config, room: int, log: RL.Log)
    requires RL.IsRun(room, log) && log == RL.HearRounds(cfg, [], |log|).log
    ensures RL.Result(room, log) == -1 && RL.Stored(room, log) == [] && RL.Replies(room, log) == [[0x18, 0x18]]
    ensures RL.HearRounds(cfg, [], |log|).rest == []
  {
    hide RL.HearRounds, RL.Payload, RL.Failures, RL.Cancels, RL.Ended, RL.Replies;
    NothingButSilence(cfg, room, 10);
    RR.RunIsUnique(cfg, [], room, log, RL.HearRounds(cfg, [], 10).log);
  }

  /**
   A session of which nothing but block 0 gets through fails and stores nothing, and yet leaves the file
   with the size of block 0, whatever it held before.  It cancels, and then still asks for the next file.
   */
  lemma {:induction false} FailureCutsFile(cfg: Config, room: int, fd: FileData, clean: FileData, buf: seq<byte>,
                                           log: RL.Log, stale: byte, written: nat, maxSize: nat)
    requires cfg.protocol.Ymodem? && WellFormed(fd) && FitsBlock(fd) && fd.sizeValid && fd.size <= maxSize
    requires fd.filename != [] && |fd.filename| < clean.filenameSize && 1028 <= |buf|
    requires Rx.IsTransfer(cfg, room, clean, Readings(Frame(true, 0, Block0Data(fd))), buf, log)
    ensures var s := Rx.Session(cfg, room, clean, Readings(Frame(true, 0, Block0Data(fd))), buf, log, stale);
            s.r == -1 && !s.blocked && s.stored == [] && Rx.EndOfFile(s.r, s.fd, written, maxSize) == fd.size &&
            s.out == [[0x43], [0x06], [0x43], [0x18, 0x18], [0x43]]
  {
    hide Rx.Open, Rx.NextFile, Rx.Opened, RL.Result, RL.Stored, RL.Replies, RL.HearRounds, RL.IsRun, WellFormed,
      FitsBlock, Frame, Readings, Block0Data;
    var inp := Readings(Frame(true, 0, Block0Data(fd)));
    OpenedAtOnce(cfg, Block0Data(fd), []);
    assert inp + [] == inp;
    MetaDataRead(fd, clean, buf, []);
    SilentTransfer(cfg, room, log);
    NoNextFile(10, stale);
  }

  lemma {:induction false} NoNextFile(tries: nat, stale: byte)
    ensures Rx.NextFile([], tries, stale) == Rx.Next([], [])
  {
    if tries == 0 {
    } else {
      NoNextFile(tries - 1, stale);
    }
  }

  // ------------------------------------------------------------------------- the theorem

  /** A file to send: a name, and at least its true size among the metadata. */
  ghost predicate Announceable(fd: FileData, file: seq<byte>) {
    WellFormed(fd) && FitsBlock(fd) && PrefixClosed(fd) &&
    fd.filenameValid && fd.filename != [] && fd.sizeValid && fd.size == |file| > 0
  }

  /** The metadata as sent, without the bit the permission loses. */
  ghost predicate SameMetaData(sent: FileData, got: FileData) {
    got.filenameValid && got.filename == sent.filename && got.sizeValid && got.size == sent.size &&
    (got.dateValid == sent.dateValid) && (sent.dateValid ==> got.modifDate == sent.modifDate) &&
    (got.permissionValid == sent.permissionValid) &&
    (sent.permissionValid ==> got.permission == sent.permission % 0x8000) &&
    (got.serialValid == sent.serialValid) && (sent.serialValid ==> got.serial == sent.serial)
  }

  lemma MetaDataSurvives(fd: FileData, file: seq<byte>, room: nat)
    requires Announceable(fd, file)
    ensures FieldCount(fd) >= 1 && SameMetaData(fd, Sent(fd, room))
  {
    hide WellFormed, FitsBlock;
  }

  /** The sending half: block 0, every copy of every item, the end of the batch. */
  method SendSession(tx: Modem, ghost p: Setting, ghost copies: seq<seq<Copy>>, ghost more: seq<Reading>)
    returns (r: int)
    requires Ready(tx) && tx.protocol.Ymodem? && WellFormed(tx.fileData) && FitsBlock(tx.fileData)
    requires tx.fileData.filenameValid && Tolerable(p, copies)
    requires p.txCfg == tx.Cfg() && p.blocks == BlocksOf(tx) && tx.inp == TxSession(copies, more)
    modifies tx`sent, tx`inp, tx`readCount, tx`blkSize, tx.blk, tx.ramfile`readOffset
    ensures r == |SL.Concat(p.blocks)| && tx.inp == more
    ensures tx.sent == old(tx.sent) + ([Frame(true, 0, Block0Data(tx.fileData))] +
                       SR.Repeated(p.txCfg, p.blocks, Counts(copies)) + [END_OF_BATCH])
  {
    hide Tx.FirstKept, tx.Valid, WellFormed, FitsBlock, Block0Data, Frame, Tx.Session, Tx.Announce, Tx.IsTransfer,
      TxSession, BlocksOf, SL.Concat, SL.Emitted, SR.Repeated, Counts;
    ghost var n, blkSize, log := tx.blk.Length - 3, tx.blkSize, [];
    SentIfItFits(tx.fileData, n);
    var blocked;
    r, blocked, log := Tx.YmodemEmit(tx);
    SenderSession(p, tx.fileData, copies, more, n, blkSize, log);
    EveryCopySent(p, copies);
  }

  /** The receiving half: the file, cut to its size, and the metadata. */
  method ReceiveSession(rx: Modem, ghost p: Setting, ghost fd: FileData, ghost file: seq<byte>,
                        ghost copies: seq<seq<Copy>>, ghost more: seq<Reading>)
    returns (r: int)
    requires rx.Valid() && rx.Cfg().LineBufferSet() && 1028 <= rx.blk.Length
    requires rx.ramfile.writeOffset == 0 && p.room == rx.ramfile.maxSize && Fits(p) && Tolerable(p, copies)
    requires Announceable(fd, file) && |fd.filename| < rx.fileData.filenameSize
    requires p.rxCfg == rx.Cfg() && file <= SL.Concat(p.blocks)
    requires rx.inp == RxSession(p, Frame(true, 0, Block0Data(fd)), copies, more)
    modifies rx`inp, rx`sent, rx`readCount, rx`fileData, rx.blk, rx.ramfile`writeOffset, rx.ramfile.buffer
    ensures r == |SL.Concat(p.blocks)| && rx.inp == more && rx.sent == old(rx.sent) + TxSession(copies, [])
    ensures rx.ramfile.Valid() && rx.ramfile.Contents() == file && SameMetaData(fd, rx.fileData)
  {
    hide rx.Valid, WellFormed, FitsBlock, Block0Data, Frame, Rx.Session, Rx.IsTransfer, TxSession, RxSession,
      SL.Concat, Sent, FieldCount, SameMetaData;
    ghost var clean := rx.fileData;
    MetaDataSurvives(fd, file, clean.filenameSize);
    Empty(rx);
    ghost var buf, log := rx.blk[..], [];
    var blocked;
    r, blocked, log := Rx.YmodemReceive(rx);
    ReceiverSession(p, fd, clean, copies, more, buf, log, rx.blk[2]);
    SizeOf(fd, file, clean.filenameSize);
    CutToSize(file, SL.Concat(p.blocks));
    Whole(rx);
  }

  lemma Empty(m: Modem)
    requires m.Valid() && m.ramfile.writeOffset == 0
    ensures m.ramfile.Valid() && m.ramfile.Contents() == [] && Receiver.Room(m) == m.ramfile.maxSize
  {
  }

  lemma Whole(m: Modem)
    requires m.Valid()
    ensures m.ramfile.Valid()
  {
  }

  lemma SizeOf(fd: FileData, file: seq<byte>, room: nat)
    requires Announceable(fd, file)
    ensures Sent(fd, room).sizeValid && Sent(fd, room).size == |file| > 0
  {
    hide WellFormed, FitsBlock;
  }

  lemma CutToSize(file: seq<byte>, padded: seq<byte>)
    requires file <= padded
    ensures ([] + padded) == padded && padded[..|file|] == file
  {
  }

  /**
   A YMODEM session delivers the file: both sides return the padded length, the receiver holds exactly
   the bytes of the file and its metadata, and each side has sent what the other one heard, but for
   at most nine damaged copies of each item.
   */
  method RunSession(tx: Modem, rx: Modem, ghost copies: seq<seq<Copy>>, ghost txMore: seq<Reading>,
                    ghost rxMore: seq<Reading>)
    returns (sentBytes: int, receivedBytes: int)
    requires Apart(tx, rx) && Ready(tx) && rx.Valid() && rx.Cfg().LineBufferSet()
    requires tx.protocol.Ymodem? && rx.protocol.Ymodem? && 1028 <= rx.blk.Length
    requires Announceable(tx.fileData, tx.ramfile.Unread()) && |tx.fileData.filename| < rx.fileData.filenameSize
    requires rx.ramfile.writeOffset == 0 && |SL.Padded(1024, tx.ramfile.Unread())| < rx.ramfile.maxSize
    requires var p := Setting(tx.Cfg(), rx.Cfg(), BlocksOf(tx), rx.ramfile.maxSize, true, 0);
             AreFaults(p, copies) && |copies| == |p.blocks| + 1 && FewFaults(copies) &&
             tx.inp == TxSession(copies, txMore) &&
             rx.inp == RxSession(p, Frame(true, 0, Block0Data(tx.fileData)), copies, rxMore)
    modifies tx`sent, tx`inp, tx`readCount, tx`blkSize, tx.blk, tx.ramfile`readOffset
    modifies rx`inp, rx`sent, rx`readCount, rx`fileData, rx.blk, rx.ramfile`writeOffset, rx.ramfile.buffer
    ensures sentBytes == receivedBytes == |SL.Padded(1024, old(tx.ramfile.Unread()))|
    ensures rx.ramfile.Valid() && rx.ramfile.Contents() == old(tx.ramfile.Unread())
    ensures SameMetaData(old(tx.fileData), rx.fileData)
    ensures tx.inp == txMore && rx.inp == rxMore && rx.sent == old(rx.sent) + TxSession(copies, [])
    ensures tx.sent == old(tx.sent) + ([Frame(true, 0, Block0Data(tx.fileData))] +
                       SR.Repeated(tx.Cfg(), old(BlocksOf(tx)), Counts(copies)) + [END_OF_BATCH])
  {
    hide WellFormed, FitsBlock, Block0Data, Frame, TxSession, RxSession, SL.Concat, SR.Repeated, Counts, SameMetaData,
      IsTable, AreFaults, FewFaults;
    ghost var p := Setting(tx.Cfg(), rx.Cfg(), BlocksOf(tx), rx.ramfile.maxSize, true, 0);
    ghost var fd, file := tx.fileData, tx.ramfile.Unread();
    SR.PaddedLength(1024, file);
    sentBytes := SendSession(tx, p, copies, txMore);
    receivedBytes := ReceiveSession(rx, p, fd, file, copies, rxMore);
  }
}
