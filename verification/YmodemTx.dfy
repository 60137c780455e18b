/** The sending side of a YMODEM session, lymodem_emit in src/lmodem_tx.c. */
module YmodemTx {
  import opened Bytes
  import opened Crc16
  import opened Protocol
  import opened Modem
  import opened BlockZero
  import opened BlockZeroTx
  import opened Handshake
  import RL = ReceiverLog
  import Receiver
  import SL = SenderLog
  import opened Sender

  /** What a part of the session leads to: result, what is left of the line, what was sent. */
  datatype Stage = Stage(r: int, goOn: bool, blocked: bool, last: byte, rest: seq<Reading>, out: seq<seq<byte>>)

  predicate Compatible(cfg: Config, preambule: byte) {
    (preambule == NAK && cfg.opts.Checksum128?) || (preambule == CHAR_C && cfg.SenderUsesCrc())
  }

  /** Does lxmodem_emit get to the data transfer? */
  predicate Starts(cfg: Config, inp: seq<Reading>) {
    var w := Catch(inp, 10);
    w.found && Compatible(cfg, w.b)
  }

  /** The log of the data transfer is a run of what follows the start character. */
  ghost predicate IsTransfer(cfg: Config, blocks: seq<seq<byte>>, inp: seq<Reading>, log: SL.Answers) {
    Starts(cfg, inp) ==> SL.IsRun(|blocks|, log) && log == SL.ListenRounds(Catch(inp, 10).rest, |log|).log
  }

  /** lxmodem_emit: zero without a start character, -1 after one of another mode. */
  ghost function Transfer(cfg: Config, blocks: seq<seq<byte>>, inp: seq<Reading>, log: SL.Answers): Stage
    requires forall i :: 0 <= i < |blocks| ==> IsBlockSize(|blocks[i]|)
  {
    var w := Catch(inp, 10);
    if !w.found then Stage(0, true, false, 0, w.rest, [])
    else if !Compatible(cfg, w.b) then Stage(-1, true, false, 0, w.rest, [RL.CANCEL])
    else
      Stage(SL.Result(blocks, log), true, false, 0, SL.ListenRounds(w.rest, |log|).rest,
            SL.Emitted(cfg, blocks, log))
  }

  method EmitXmodem(m: Modem) returns (r: int, ghost log: SL.Answers)
    requires Ready(m)
    modifies m`sent, m`inp, m`readCount, m`blkSize, m.blk, m.ramfile`readOffset
    ensures Ready(m) && m.Cfg() == old(m.Cfg())
    ensures IsTransfer(m.Cfg(), old(BlocksOf(m)), old(m.inp), log)
    ensures var t := Transfer(m.Cfg(), old(BlocksOf(m)), old(m.inp), log);
            r == t.r && m.inp == t.rest && m.sent == old(m.sent) + t.out
  {
    hide IsTable, BlocksOf, SL.IsRun, SL.ListenRounds, SL.Result, SL.Emitted, Catch;
    r, log := 0, [];
    var received, preambule := WaitReception(m);
    if received {
      var canContinue := DecodePreambule(m, preambule);
      if !canContinue {
        Receiver.BuildAndSendCancel(m);
        r := -1;
      } else {
        r, log := SendDataBlocks(m);
      }
    }
  }

  /** The first handshake: the start character, block 0 if there is a name, the answer to it. */
  function Announce(block0: seq<seq<byte>>, kept: seq<byte>, inp: seq<Reading>): (a: Stage)
    ensures a.r == -1
  {
    var a := Await(inp, CHAR_C, 10);
    if !a.ok then Stage(-1, false, false, 0, a.rest, [])
    else
      var s := Settle(a.rest, 0, 0);
      Stage(-1, s.outcome.Acked? || s.outcome.GivenUp?, s.outcome.Blocked?, s.last, s.rest,
            block0 + Repeat(kept, s.resends))
  }

  /** The metadata can be laid out in a line buffer with n bytes behind the header. */
  ghost predicate Sendable(fd: FileData, n: nat) {
    WellFormed(fd) && n >= 1026 && (fd.filenameValid ==> FieldsHaveRoom(fd, n))
  }

  ghost function Block0Of(fd: FileData, n: nat): seq<seq<byte>>
    requires Sendable(fd, n)
  {
    if fd.filenameValid then [Frame(true, 0, Block0Sent(fd, n))] else []
  }

  /** What a NAK for block 0 gets: block 0, or without a name as much of the line buffer as was sent last. */
  ghost function FirstKept(fd: FileData, n: nat, blkSize: nat): seq<byte>
    requires Sendable(fd, n)
  {
    if fd.filenameValid then Frame(true, 0, Block0Sent(fd, n)) else Unnamed(blkSize)
  }

  /** The first handshake with this metadata. */
  ghost function First(fd: FileData, n: nat, blkSize: nat, inp: seq<Reading>): (a: Stage)
    requires Sendable(fd, n)
    ensures a.r == -1
  {
    Announce(Block0Of(fd, n), FirstKept(fd, n, blkSize), inp)
  }

  lemma SentInParts(a: seq<seq<byte>>, b: seq<seq<byte>>, c: seq<seq<byte>>, ab: seq<seq<byte>>)
    requires ab == a + b
    ensures ab + c == a + (b + c)
  {
  }

  /** Block 0, if there is a name, and the answer to it. */
  method SettleBlock0(m: Modem) returns (outcome: Outcome, last: byte)
    requires Ready(m) && m.protocol.Ymodem? && Sendable(m.fileData, m.blk.Length - 3)
    modifies m`sent, m`inp, m`readCount, m`blkSize, m.blk
    ensures Ready(m) && BlocksOf(m) == old(BlocksOf(m))
    ensures var s := Settle(old(m.inp), 0, 0);
            outcome == s.outcome && last == s.last && m.inp == s.rest &&
            m.sent == old(m.sent) + (Block0Of(m.fileData, m.blk.Length - 3) +
                                     Repeat(FirstKept(m.fileData, m.blk.Length - 3, old(m.blkSize)), s.resends))
  {
    hide m.crc16.Valid, WellFormed, FieldsHaveRoom, Block0Sent, Frame, Settle, Unnamed;
    var _ := BuildAndSendBlock0(m);
    SentInParts(old(m.sent), Block0Of(m.fileData, m.blk.Length - 3), Repeat(Kept(m), Settle(m.inp, 0, 0).resends),
                m.sent);
    outcome, last := SettleHandshake(m, 0);
  }

  method AnnounceFile(m: Modem) returns (ok: bool, blocked: bool, receivedChar: byte)
    requires Ready(m) && m.protocol.Ymodem? && Sendable(m.fileData, m.blk.Length - 3)
    modifies m`sent, m`inp, m`readCount, m`blkSize, m.blk
    ensures Ready(m) && BlocksOf(m) == old(BlocksOf(m))
    ensures var a := First(m.fileData, m.blk.Length - 3, old(m.blkSize), old(m.inp));
            ok == a.goOn && blocked == a.blocked && receivedChar == a.last && m.inp == a.rest &&
            m.sent == old(m.sent) + a.out
  {
    hide m.crc16.Valid, Sendable, Block0Of, FirstKept, Await, Settle;
    receivedChar, blocked := 0, false;
    ok := WaitReceptionOf(m, CHAR_C);
    if ok {
      var outcome;
      outcome, receivedChar := SettleBlock0(m);
      blocked := outcome.Blocked?;
      ok := !blocked && !outcome.Cancelled?;
    }
  }

  /** The last handshake: the end of the batch, and the answer to it. */
  function Conclude(r: int, last: byte, inp: seq<Reading>): Stage {
    var s := Settle(inp, last, 0);
    Stage(if s.outcome.Cancelled? then -1 else r, true, s.outcome.Blocked?, s.last, s.rest,
          [END_OF_BATCH] + Repeat(END_OF_BATCH, s.resends))
  }

  method FinishBatch(m: Modem, lastChar: byte, emitted: int) returns (r: int, blocked: bool)
    requires Ready(m) && m.protocol.Ymodem?
    modifies m`sent, m`inp, m`readCount, m`blkSize, m.blk
    ensures Ready(m)
    ensures var s := Conclude(emitted, lastChar, old(m.inp));
            r == s.r && blocked == s.blocked && m.inp == s.rest && m.sent == old(m.sent) + s.out
  {
    hide m.crc16.Valid, Settle, Frame;
    r := emitted;
    SendEndOfBatch(m);
    var outcome, _ := SettleHandshake(m, lastChar);
    blocked := outcome.Blocked?;
    if outcome.Cancelled? {
      r := -1;
    }
  }

  /**
   An acknowledged block 0 leaves its ACK behind: if nothing answers the end of the batch, that stale ACK
   is taken for the answer, and nothing is sent again.
   */
  lemma StaleAckConcludes(block0: seq<seq<byte>>, kept: seq<byte>, inp: seq<Reading>, r: int, rest: seq<Reading>)
    requires var a := Await(inp, CHAR_C, 10); a.ok && Settle(a.rest, 0, 0).outcome.Acked?
    requires !Catch(rest, 10).found
    ensures Announce(block0, kept, inp).goOn
    ensures Conclude(r, Announce(block0, kept, inp).last, rest) ==
            Stage(r, true, false, ACK, Catch(rest, 10).rest, [END_OF_BATCH])
  {
    hide Await, Catch;
    AckedByAck(Await(inp, CHAR_C, 10).rest, 0, 0);
    SilenceRepeats(rest, ACK, 0);
    assert [END_OF_BATCH] + Repeat(END_OF_BATCH, 0) == [END_OF_BATCH];
  }

  /** After the transfer: a result of zero is not followed by another wait for the start character. */
  function Close(r: int, last: byte, inp: seq<Reading>): Stage {
    var c := if r != 0 then Await(inp, CHAR_C, 10) else Awaited(true, inp);
    if c.ok then Conclude(r, last, c.rest) else Stage(r, false, false, last, c.rest, [])
  }

  method CloseBatch(m: Modem, lastChar: byte, emitted: int) returns (r: int, blocked: bool)
    requires Ready(m) && m.protocol.Ymodem?
    modifies m`sent, m`inp, m`readCount, m`blkSize, m.blk
    ensures Ready(m)
    ensures var s := Close(emitted, lastChar, old(m.inp));
            r == s.r && blocked == s.blocked && m.inp == s.rest && m.sent == old(m.sent) + s.out
  {
    hide m.crc16.Valid, Conclude, Await;
    r, blocked := emitted, false;
    var ok := true;
    if r != 0 {
      ok := WaitReceptionOf(m, CHAR_C);
    }
    if ok {
      r, blocked := FinishBatch(m, lastChar, r);
    }
  }

  /** A whole sending session, around a data transfer with the given answers. */
  ghost function Session(cfg: Config, fd: FileData, n: nat, blkSize: nat, blocks: seq<seq<byte>>, inp: seq<Reading>,
                         log: SL.Answers): Stage
    requires Sendable(fd, n)
    requires forall i :: 0 <= i < |blocks| ==> IsBlockSize(|blocks[i]|)
  {
    var a := First(fd, n, blkSize, inp);
    if !a.goOn then a
    else
      var t := Transfer(cfg, blocks, a.rest, log);
      var c := Close(t.r, a.last, t.rest);
      c.(out := a.out + t.out + c.out)
  }

  /**
   lymodem_emit.  Blocked means that the line fell silent in one of the two waits without a bound.
   */
  method YmodemEmit(m: Modem) returns (r: int, blocked: bool, ghost log: SL.Answers)
    requires Ready(m) && m.protocol.Ymodem? && Sendable(m.fileData, m.blk.Length - 3)
    modifies m`sent, m`inp, m`readCount, m`blkSize, m.blk, m.ramfile`readOffset
    ensures Ready(m)
    ensures var a := First(m.fileData, m.blk.Length - 3, old(m.blkSize), old(m.inp));
            a.goOn ==> IsTransfer(m.Cfg(), old(BlocksOf(m)), a.rest, log)
    ensures var s := Session(m.Cfg(), m.fileData, m.blk.Length - 3, old(m.blkSize), old(BlocksOf(m)), old(m.inp), log);
            r == s.r && blocked == s.blocked && m.inp == s.rest && m.sent == old(m.sent) + s.out
  {
    hide m.Valid, Sendable, First, IsTransfer, Transfer, Close, BlocksOf;
    r, log := -1, [];
    var ok, receivedChar;
    ok, blocked, receivedChar := AnnounceFile(m);
    if ok {
      r, log := EmitXmodem(m);
      r, blocked := CloseBatch(m, receivedChar, r);
    }
  }

  // ------------------------------------------------------------------- the session, in bytes

  /** 'C', some NAKs and the answer. */
  function Answers(f: nat, c: byte, rest: seq<Reading>): seq<Reading> { [[0x43]] + (Naks(f) + ([[c]] + rest)) }

  lemma OneAndMore(item: seq<byte>, f: nat)
    ensures [item] + Repeat(item, f) == Repeat(item, f + 1)
  {
  }

  /** f NAKs put f + 1 copies of block 0 on the line; then an ACK lets the session go on, and a CAN does not. */
  lemma NaksRepeatBlock0(fd: FileData, n: nat, blkSize: nat, f: nat, c: byte, rest: seq<Reading>)
    requires Sendable(fd, n) && fd.filenameValid && f <= 9 && (c == 0x06 || c == 0x18)
    ensures First(fd, n, blkSize, Answers(f, c, rest)) ==
            Stage(-1, c == 0x06, false, c, rest, Repeat(Frame(true, 0, Block0Sent(fd, n)), f + 1))
  {
    hide WellFormed, FieldsHaveRoom, Block0Sent, Frame, Naks, Await, Settle;
    var after := Naks(f) + ([[c]] + rest);
    AwaitInBytes([], 0x43, after, 10);
    assert [] + ([[0x43]] + after) == Answers(f, c, rest);
    NaksThenAnswer(f, c, rest, 0, 0);
    OneAndMore(Frame(true, 0, Block0Sent(fd, n)), f);
  }

  /** A receiver that cancels in answer to block 0: -1, and nothing is sent after block 0 and its copies. */
  lemma CancelledAtBlock0(cfg: Config, fd: FileData, n: nat, blkSize: nat, blocks: seq<seq<byte>>, f: nat,
                          rest: seq<Reading>, log: SL.Answers)
    requires Sendable(fd, n) && fd.filenameValid && f <= 9
    requires forall i :: 0 <= i < |blocks| ==> IsBlockSize(|blocks[i]|)
    ensures var s := Session(cfg, fd, n, blkSize, blocks, Answers(f, 0x18, rest), log);
            s.r == -1 && !s.blocked && s.rest == rest && s.out == Repeat(Frame(true, 0, Block0Sent(fd, n)), f + 1)
  {
    hide Sendable, First, Answers, Block0Sent, Frame;
    NaksRepeatBlock0(fd, n, blkSize, f, 0x18, rest);
  }

  /** Ten readings without a 'C': -1, and nothing is sent at all. */
  lemma NoReceiver(cfg: Config, fd: FileData, n: nat, blkSize: nat, blocks: seq<seq<byte>>, others: seq<Reading>,
                   rest: seq<Reading>, log: SL.Answers)
    requires Sendable(fd, n) && |others| == 10 && forall i :: 0 <= i < |others| ==> others[i] != [0x43]
    requires forall i :: 0 <= i < |blocks| ==> IsBlockSize(|blocks[i]|)
    ensures var s := Session(cfg, fd, n, blkSize, blocks, others + rest, log);
            s.r == -1 && !s.blocked && s.rest == rest && s.out == []
  {
    hide Sendable, Block0Sent, Frame, Await, Settle;
    AwaitInBytes(others, 0x43, rest, 10);
  }

  /** f NAKs put f + 1 copies of the end of the batch on the line; a CAN in answer to it turns the result to -1. */
  lemma NaksRepeatEnd(r: int, last: byte, f: nat, c: byte, rest: seq<Reading>)
    requires f <= 9 && (c == 0x06 || c == 0x18)
    ensures Conclude(r, last, Naks(f) + ([[c]] + rest)) ==
            Stage(if c == 0x18 then -1 else r, true, false, c, rest, Repeat(END_OF_BATCH, f + 1))
  {
    hide Frame, Naks, Settle;
    NaksThenAnswer(f, c, rest, last, 0);
    OneAndMore(END_OF_BATCH, f);
  }

  /** The start of a data transfer: nothing comes; a start character of another mode comes; the right one comes. */
  lemma StartInBytes(cfg: Config, blocks: seq<seq<byte>>, quiet: seq<Reading>, b: byte, rest: seq<Reading>,
                     log: SL.Answers)
    requires Quiet(quiet) && forall i :: 0 <= i < |blocks| ==> IsBlockSize(|blocks[i]|)
    ensures |quiet| == 10 ==> Transfer(cfg, blocks, quiet + rest, log) == Stage(0, true, false, 0, rest, [])
    ensures |quiet| < 10 && !Compatible(cfg, b) ==>
              Transfer(cfg, blocks, quiet + ([[b]] + rest), log) == Stage(-1, true, false, 0, rest, [[0x18, 0x18]])
    ensures |quiet| < 10 ==> (Starts(cfg, quiet + ([[b]] + rest)) <==> Compatible(cfg, b))
  {
    hide Catch, Compatible;
    CatchInBytes(quiet, b, rest, 10);
  }

  /** The start characters: 0x15 asks for the checksum, 0x43 for the CRC. */
  lemma StartCharacters(cfg: Config, b: byte)
    ensures Compatible(cfg, b) <==>
            (b == 0x15 && cfg.opts.Checksum128?) || (b == 0x43 && (cfg.protocol.Ymodem? || !cfg.opts.Checksum128?))
  {
  }

  /** After a result of zero the end of the batch goes out at once, after any other one only behind a 'C'. */
  lemma CloseInBytes(r: int, last: byte, others: seq<Reading>, rest: seq<Reading>)
    requires forall i :: 0 <= i < |others| ==> others[i] != [0x43]
    ensures r == 0 ==> Close(r, last, rest) == Conclude(r, last, rest)
    ensures r != 0 && |others| < 10 ==> Close(r, last, others + ([[0x43]] + rest)) == Conclude(r, last, rest)
    ensures r != 0 && |others| == 10 ==> Close(r, last, others + rest) == Stage(r, false, false, last, rest, [])
  {
    hide Await, Conclude;
    AwaitInBytes(others, 0x43, rest, 10);
  }

  /** Ten NAKs to block 0: eleven copies of it, and the session goes on as if it had been acknowledged. */
  lemma TenNaksGoOn(fd: FileData, n: nat, blkSize: nat, rest: seq<Reading>)
    requires Sendable(fd, n) && fd.filenameValid
    ensures First(fd, n, blkSize, [[0x43]] + (Naks(10) + rest)) ==
            Stage(-1, true, false, 0x15, rest, Repeat(Frame(true, 0, Block0Sent(fd, n)), 11))
  {
    hide WellFormed, FieldsHaveRoom, Block0Sent, Frame, Naks, Await, Settle;
    var after := Naks(10) + rest;
    AwaitInBytes([], 0x43, after, 10);
    assert [] + ([[0x43]] + after) == [[0x43]] + after;
    TenNaksGiveUp(10, rest, 0, 0);
    OneAndMore(Frame(true, 0, Block0Sent(fd, n)), 10);
  }

  /** Ten NAKs to the end of the batch: eleven copies of it, and the result stays. */
  lemma TenNaksConclude(r: int, last: byte, rest: seq<Reading>)
    ensures Conclude(r, last, Naks(10) + rest) == Stage(r, true, false, 0x15, rest, Repeat(END_OF_BATCH, 11))
  {
    hide Frame, Naks, Settle;
    TenNaksGiveUp(10, rest, last, 0);
    OneAndMore(END_OF_BATCH, 10);
  }

  /** No start character after block 0: zero, and the end of the batch goes out at once. */
  lemma NoTransfer(cfg: Config, fd: FileData, n: nat, blkSize: nat, blocks: seq<seq<byte>>, f: nat,
                   quiet: seq<Reading>, rest: seq<Reading>, log: SL.Answers)
    requires Sendable(fd, n) && fd.filenameValid && f <= 9 && Quiet(quiet) && |quiet| == 10
    requires forall i :: 0 <= i < |blocks| ==> IsBlockSize(|blocks[i]|)
    ensures var s := Session(cfg, fd, n, blkSize, blocks, Answers(f, 0x06, quiet + ([[0x06]] + rest)), log);
            s.r == 0 && !s.blocked && s.rest == rest &&
            s.out == Repeat(Frame(true, 0, Block0Sent(fd, n)), f + 1) + [] + [END_OF_BATCH]
  {
    hide Sendable, First, Answers, Block0Sent, Frame, Transfer, Close, Conclude;
    var after := [[0x06]] + rest;
    NaksRepeatBlock0(fd, n, blkSize, f, 0x06, quiet + after);
    StartInBytes(cfg, blocks, quiet, 0, after, log);
    CloseInBytes(0, 0x06, [], after);
    EndAcked(0, 0x06, rest);
  }

  lemma EndAcked(r: int, last: byte, rest: seq<Reading>)
    ensures Conclude(r, last, [[0x06]] + rest) == Stage(r, true, false, 0x06, rest, [END_OF_BATCH])
  {
    hide Conclude, Frame, Naks;
    NaksRepeatEnd(r, last, 0, 0x06, rest);
    NoNaks([[0x06]] + rest);
    assert Repeat(END_OF_BATCH, 1) == [END_OF_BATCH];
  }

  /** A start character of another mode: CAN CAN, then the end of the batch behind a 'C', and -1. */
  lemma ForeignTransfer(cfg: Config, fd: FileData, n: nat, blkSize: nat, blocks: seq<seq<byte>>, f: nat, b: byte,
                        rest: seq<Reading>, log: SL.Answers)
    requires Sendable(fd, n) && fd.filenameValid && f <= 9 && !Compatible(cfg, b)
    requires forall i :: 0 <= i < |blocks| ==> IsBlockSize(|blocks[i]|)
    ensures var inp := Answers(f, 0x06, [[b]] + ([[0x43]] + ([[0x06]] + rest)));
            var s := Session(cfg, fd, n, blkSize, blocks, inp, log);
            s.r == -1 && !s.blocked && s.rest == rest &&
            s.out == Repeat(Frame(true, 0, Block0Sent(fd, n)), f + 1) + [[0x18, 0x18]] + [END_OF_BATCH]
  {
    hide Sendable, First, Answers, Block0Sent, Frame, Transfer, Close, Conclude, Compatible;
    var after := [[0x06]] + rest;
    var closing := [[0x43]] + after;
    NaksRepeatBlock0(fd, n, blkSize, f, 0x06, [[b]] + closing);
    StartInBytes(cfg, blocks, [], b, closing, log);
    assert [] + ([[b]] + closing) == [[b]] + closing && [] + ([[0x43]] + after) == closing;
    CloseInBytes(-1, 0x06, [], after);
    EndAcked(-1, 0x06, rest);
  }

  /** Without a name block 0 is not sent, but a NAK gets as much of the cleared line buffer as was sent last. */
  lemma NaksWithoutName(fd: FileData, n: nat, blkSize: nat, f: nat, rest: seq<Reading>)
    requires Sendable(fd, n) && !fd.filenameValid && f <= 9 && blkSize >= 3
    ensures var kept: seq<byte> := [0x00, 0x00, 0xff] + Repeat(0, blkSize - 3);
            First(fd, n, blkSize, Answers(f, 0x06, rest)) == Stage(-1, true, false, 0x06, rest, Repeat(kept, f))
  {
    hide WellFormed, FieldsHaveRoom, Naks, Await, Settle;
    var kept: seq<byte> := [0x00, 0x00, 0xff] + Repeat(0, blkSize - 3);
    var after := Naks(f) + ([[0x06]] + rest);
    AwaitInBytes([], 0x43, after, 10);
    assert [] + ([[0x43]] + after) == Answers(f, 0x06, rest);
    NaksThenAnswer(f, 0x06, rest, 0, 0);
    assert Unnamed(blkSize) == kept;
    assert [] + Repeat(kept, f) == Repeat(kept, f);
  }
}
