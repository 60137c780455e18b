/** The receive loop of src/lmodem_rx.c. */
module Receiver {
  import opened Bytes
  import opened Crc16
  import opened Detection
  import opened Protocol
  import opened Modem
  import opened ReceiverLog

  datatype Status = RecvOk | RecvPreviousBlock | RecvError

  method BuildAndSendPreambule(m: Modem)
    modifies m`sent
    ensures m.sent == old(m.sent) + [[Preamble(m.Cfg())]]
  {
    var p: byte := NAK;
    if m.protocol.Xmodem? {
      match m.opts {
        case Checksum128 => p := NAK;
        case Crc128 => p := CHAR_C;
        case Crc1k => p := CHAR_C;
      }
    } else {
      p := CHAR_C;
    }
    m.PutChar([p]);
  }

  function Preamble(cfg: Config): byte {
    if cfg.protocol.Ymodem? || !cfg.opts.Checksum128? then CHAR_C else NAK
  }

  method BuildAndSendReply(m: Modem, rcvStatus: Status)
    modifies m`sent
    ensures m.sent == old(m.sent) + [[if rcvStatus.RecvError? then NAK else ACK]]
  {
    var ack: byte;
    if rcvStatus.RecvOk? || rcvStatus.RecvPreviousBlock? {
      ack := ACK;
    } else {
      ack := NAK;
    }
    m.PutChar([ack]);
  }

  method BuildAndSendCancel(m: Modem)
    modifies m`sent
    ensures m.sent == old(m.sent) + [CANCEL]
  {
    m.PutChar([CAN, CAN]);
  }

  /** The check bytes of the block in the line buffer are those of its data. */
  method CheckCrc(m: Modem, size: nat) returns (ok: Status)
    requires m.Valid() && BodySize(m.Cfg(), size) <= m.blk.Length
    ensures ok == if m.blk[2 + size..BodySize(m.Cfg(), size)] ==
                     CheckBytes(m.Cfg().ReceiverUsesCrc(size), m.blk[2..2 + size]) then RecvOk else RecvError
  {
    ok := RecvError;
    if m.withCrc || m.protocol.Ymodem? || size > 128 {
      var hiCrc, loCrc := m.CalculCrc(2, size);
      assert m.blk[2 + size..2 + size + 2] == [m.blk[2 + size], m.blk[2 + size + 1]];
      hide CrcBytes;
      if hiCrc == m.blk[2 + size] && loCrc == m.blk[2 + size + 1] {
        ok := RecvOk;
      } else {
        assert [hiCrc, loCrc][0] != m.blk[2 + size] || [hiCrc, loCrc][1] != m.blk[2 + size + 1];
      }
    } else {
      var chksum := m.CalculChksum(2, size);
      assert m.blk[2 + size..2 + size + 1] == [m.blk[2 + size]];
      if chksum == m.blk[size + 2] {
        ok := RecvOk;
      }
    }
  }

  function BodySize(cfg: Config, size: nat): nat {
    2 + size + if cfg.ReceiverUsesCrc(size) then 2 else 1
  }

  /** How the body in the line buffer is classified. */
  function Classify(cfg: Config, accepted: nat, size: nat, body: seq<byte>): Status
    requires |body| == BodySize(cfg, size)
  {
    if body == Body(cfg.ReceiverUsesCrc(size), BlockNo(accepted + 1), DataOf(body, size)) then RecvOk
    else if body[0] == BlockNo(accepted) && body[1] == Complement(BlockNo(accepted)) then RecvPreviousBlock
    else RecvError
  }

  method CheckBlockNoAndCrc(m: Modem, expectedBlkNumber: byte, size: nat, ghost accepted: nat)
    returns (rcvStatus: Status)
    requires m.Valid() && BodySize(m.Cfg(), size) <= m.blk.Length
    requires expectedBlkNumber == BlockNo(accepted + 1)
    ensures rcvStatus == Classify(m.Cfg(), accepted, size, m.blk[..BodySize(m.Cfg(), size)])
  {
    ghost var body := m.blk[..BodySize(m.Cfg(), size)];
    BodyInParts(m.Cfg().ReceiverUsesCrc(size), expectedBlkNumber, size, body);
    PreviousNumber(accepted);
    assert m.blk[2..2 + size] == DataOf(body, size);
    assert m.blk[2 + size..BodySize(m.Cfg(), size)] == body[2 + size..];
    var complement := 255 - expectedBlkNumber;
    rcvStatus := RecvError;
    if m.blk[0] == expectedBlkNumber && m.blk[1] == complement {
      rcvStatus := RecvOk;
    } else {
      var previousBlkNumber := (expectedBlkNumber + 255) % 256;
      complement := 255 - previousBlkNumber;
      if m.blk[0] == previousBlkNumber && m.blk[1] == complement {
        rcvStatus := RecvPreviousBlock;
      }
    }
    if rcvStatus.RecvOk? {
      rcvStatus := CheckCrc(m, size);
    }
  }

  /** One less than the expected number, with the wrap of an 8-bit subtraction. */
  lemma PreviousNumber(accepted: nat)
    ensures (BlockNo(accepted + 1) + 255) % 256 == BlockNo(accepted) != BlockNo(accepted + 1)
  {
  }

  lemma BodyInParts(crc: bool, no: byte, size: nat, body: seq<byte>)
    requires |body| == 2 + size + if crc then 2 else 1
    ensures body == Body(crc, no, DataOf(body, size)) <==>
            body[0] == no && body[1] == Complement(no) && body[2 + size..] == CheckBytes(crc, DataOf(body, size))
  {
    var data := DataOf(body, size);
    var whole := Body(crc, no, data);
    assert whole[0] == no && whole[1] == Complement(no) && whole[2 + size..] == CheckBytes(crc, data);
    assert body == [body[0], body[1]] + data + body[2 + size..];
  }

  function StatusOf(e: Event): Status {
    match e
    case Block(_) => RecvOk
    case End => RecvOk
    case Duplicate => RecvPreviousBlock
    case _ => RecvError
  }

  method ReceiveBlock(m: Modem, expectedBlkNumber: byte, size: nat, ghost accepted: nat)
    returns (rcvStatus: Status)
    requires m.Valid() && BodySize(m.Cfg(), size) <= m.blk.Length
    requires expectedBlkNumber == BlockNo(accepted + 1)
    modifies m`inp, m`readCount, m.blk
    ensures var h := HearBlock(old(m.Cfg()), accepted, size, old(m.inp));
            m.inp == h.rest && rcvStatus == StatusOf(h.event) &&
            (h.event.Block? ==> m.blk[2..2 + size] == h.event.data)
    ensures m.Valid() && m.readCount == old(m.readCount) + 1
  {
    hide IsTable, Body, Sum, CrcBytes;
    rcvStatus := RecvError;
    var requestedData := size + 2;
    if m.withCrc || m.protocol.Ymodem? || size > 128 {
      requestedData := requestedData + 2;
    } else {
      requestedData := requestedData + 1;
    }
    assert requestedData == BodySize(m.Cfg(), size);
    var received := m.GetBlock(requestedData);
    if received {
      rcvStatus := CheckBlockNoAndCrc(m, expectedBlkNumber, size, accepted);
      DataInBuffer(m.blk, requestedData, size);
    }
  }

  lemma DataInBuffer(blk: array<byte>, n: nat, size: nat)
    requires 2 + size <= n <= blk.Length
    ensures DataOf(blk[..n], size) == blk[2..2 + size]
  {
  }

  /** The header byte answered by a block: its size, or none. */
  method ReceiveByHeader(m: Modem, header: byte, expectedBlkNumber: byte, canCharReceived: nat,
                         ghost accepted: nat, ghost inp: seq<Reading>)
    returns (rcvStatus: Status, size: nat, cans: nat, finished: bool)
    requires m.Valid() && m.Cfg().LongestBody() <= m.blk.Length
    requires m.Cfg().LineBufferSet() && expectedBlkNumber == BlockNo(accepted + 1)
    requires inp != [] && inp[0] == [header] && m.inp == inp[1..]
    modifies m`inp, m`readCount, m.blk
    ensures var h := Hear(old(m.Cfg()), accepted, inp);
            m.inp == h.rest && rcvStatus == StatusOf(h.event) && !h.event.Silence? &&
            (h.event.Block? ==> size == |h.event.data| > 0 && 2 + size <= m.blk.Length &&
                                m.blk[2..2 + size] == h.event.data) &&
            (h.event.End? ==> size == 0) &&
            cans == NextCancels(canCharReceived, h.event) &&
            finished == (h.event.End? || (h.event.Cancel? && cans >= 2))
    ensures m.Valid()
  {
    rcvStatus, size, cans, finished := RecvError, 0, canCharReceived, false;
    if header == SOH {
      cans, size := 0, 128;
      rcvStatus := ReceiveBlock(m, expectedBlkNumber, size, accepted);
    } else if header == STX {
      cans := 0;
      if m.opts.Crc1k? || m.protocol.Ymodem? {
        size := 1024;
        rcvStatus := ReceiveBlock(m, expectedBlkNumber, size, accepted);
      }
    } else if header == EOT {
      cans, size, rcvStatus, finished := 0, 0, RecvOk, true;
    } else if header == CAN {
      cans := cans + 1;
      if cans >= 2 {
        finished := true;
      }
    }
  }

  /** An accepted block is acknowledged first, then stored in full or the transfer is cancelled. */
  method AcceptBlock(m: Modem, size: nat) returns (stored: bool)
    requires m.Valid() && 2 + size <= m.blk.Length
    modifies m`sent, m.ramfile`writeOffset, m.ramfile.buffer
    ensures m.Valid()
    ensures stored == (size == 0 || size < old(Room(m)))
    ensures m.ramfile.Contents() == old(m.ramfile.Contents()) + (if stored then m.blk[2..2 + size] else [])
    ensures Room(m) == old(Room(m)) - (if stored then size else 0)
    ensures m.sent == old(m.sent) + ([[ACK]] + if stored then [] else [CANCEL])
  {
    hide IsTable;
    BuildAndSendReply(m, RecvOk);
    var nbPutInRamFile := m.ramfile.Write(m.blk, 2, size);
    stored := nbPutInRamFile == size;
    if !stored {
      m.PutChar([CAN, CAN]);
    }
  }

  /** One more round without progress; the tenth cancels the transfer. */
  method CountRetry(m: Modem, nbRetry: nat) returns (retries: nat, aborted: bool)
    modifies m`sent
    ensures retries == nbRetry + 1 && aborted == (retries >= MAX_RETRY)
    ensures m.sent == old(m.sent) + if aborted then [CANCEL] else []
  {
    retries := nbRetry + 1;
    aborted := retries >= MAX_RETRY;
    if aborted {
      BuildAndSendCancel(m);
    }
  }

  /** A block that is not accepted is answered and counted. */
  method RefuseBlock(m: Modem, rcvStatus: Status, nbRetry: nat) returns (retries: nat, aborted: bool)
    requires !rcvStatus.RecvOk?
    modifies m`sent
    ensures retries == nbRetry + 1 && aborted == (retries >= MAX_RETRY)
    ensures m.sent == old(m.sent) + ([[if rcvStatus.RecvError? then NAK else ACK]] + if aborted then [CANCEL] else [])
  {
    BuildAndSendReply(m, rcvStatus);
    retries, aborted := CountRetry(m, nbRetry);
  }

  ghost function Room(m: Modem): int
    reads m.ramfile
  {
    m.ramfile.maxSize - m.ramfile.writeOffset
  }

  /** The variables of the receive loop. */
  datatype Counters = Counters(
    expectedBlkNumber: byte, nbRetry: nat, canCharReceived: nat, receivedBytes: int, finished: bool)

  /** The counters say what the history says. */
  ghost predicate Follow(room: int, log: Log, c: Counters) {
    c.finished == Ended(room, log) &&
    if c.finished then c.receivedBytes == Result(room, log)
    else
      c.receivedBytes == |Payload(log)| &&
      c.expectedBlkNumber == BlockNo(Accepted(log) + 1) &&
      c.nbRetry == Failures(log) < MAX_RETRY &&
      c.canCharReceived == Cancels(log)
  }

  lemma FollowRefused(room: int, log: Log, e: Event, c: Counters, next: Counters)
    requires !c.finished && Follow(room, log, c) && !Progress(e)
    requires next.nbRetry == c.nbRetry + 1 && next.canCharReceived == NextCancels(c.canCharReceived, e)
    requires next.expectedBlkNumber == c.expectedBlkNumber
    requires next.finished == ((e.Cancel? && next.canCharReceived >= 2) || next.nbRetry >= MAX_RETRY)
    requires next.receivedBytes == if next.finished then -1 else c.receivedBytes
    ensures Follow(room, log + [e], next)
    ensures LastReplies(room, log + [e]) ==
            (if e.Silence? then [] else [[if e.Duplicate? then ACK else NAK]]) +
            (if next.nbRetry >= MAX_RETRY then [CANCEL] else [])
    ensures LastStored(room, log + [e]) == []
  {
    Extend(room, log, e);
  }

  lemma FollowAccepted(room: int, log: Log, e: Event, c: Counters, next: Counters, size: nat, stored: bool)
    requires !c.finished && Follow(room, log, c) && Progress(e)
    requires size == (if e.Block? then |e.data| else 0) && (e.Block? ==> size > 0)
    requires stored == (size == 0 || size < room - c.receivedBytes)
    requires !stored ==> next.finished && next.receivedBytes == -1
    requires stored ==> next == Counters((c.expectedBlkNumber + 1) % 256, 0, 0, c.receivedBytes + size, e.End?)
    ensures Follow(room, log + [e], next)
    ensures LastReplies(room, log + [e]) == [[ACK]] + if stored then [] else [CANCEL]
    ensures LastStored(room, log + [e]) == if e.Block? && stored then e.data else []
  {
    hide Stored, Result, Replies, HearRounds;
    Extend(room, log, e);
  }

  /** What a turn of the loop leaves: counters that follow the longer history. */
  ghost predicate Turned(room: int, log: Log, c: Counters, event: Event, next: Counters) {
    Follow(room, log + [event], next) &&
    (!next.finished ==> next.receivedBytes > c.receivedBytes ||
                        (next.receivedBytes == c.receivedBytes && next.nbRetry > c.nbRetry))
  }

  /** The loop body once the status of the round is known. */
  method ConcludeRound(m: Modem, rcvStatus: Status, blksize: nat, c: Counters, cans: nat, finished: bool,
                       ghost room: int, ghost log: Log, ghost event: Event)
    returns (next: Counters)
    requires m.Valid() && !c.finished && Follow(room, log, c) && Room(m) == room - c.receivedBytes
    requires rcvStatus == StatusOf(event) && !event.Silence? && cans == NextCancels(c.canCharReceived, event)
    requires finished == (event.End? || (event.Cancel? && cans >= 2))
    requires Progress(event) ==> blksize == (if event.Block? then |event.data| else 0)
    requires event.Block? ==> blksize > 0 && 2 + blksize <= m.blk.Length && m.blk[2..2 + blksize] == event.data
    requires event.End? ==> 2 <= m.blk.Length
    modifies m`sent, m.ramfile`writeOffset, m.ramfile.buffer
    ensures m.Valid() && Turned(room, log, c, event, next)
    ensures m.sent == old(m.sent) + LastReplies(room, log + [event])
    ensures m.ramfile.Contents() == old(m.ramfile.Contents()) + LastStored(room, log + [event])
    ensures !next.finished ==> Room(m) == room - next.receivedBytes
  {
    hide Follow, LastReplies, LastStored, IsTable;
    next := c.(canCharReceived := cans, finished := finished);
    if finished && !rcvStatus.RecvOk? {
      next := next.(receivedBytes := -1);
    }
    if rcvStatus.RecvOk? {
      var stored := AcceptBlock(m, blksize);
      if !stored {
        next := next.(finished := true, receivedBytes := -1);
      } else {
        next := next.(expectedBlkNumber := (c.expectedBlkNumber + 1) % 256,
                      receivedBytes := c.receivedBytes + blksize, nbRetry := 0);
      }
      FollowAccepted(room, log, event, c, next, blksize, stored);
    } else {
      var retries, aborted := RefuseBlock(m, rcvStatus, c.nbRetry);
      next := next.(nbRetry := retries);
      if aborted {
        next := next.(finished := true, receivedBytes := -1);
      }
      FollowRefused(room, log, event, c, next);
    }
  }

  /** A round without a start byte. */
  method SilentRound(m: Modem, c: Counters, ghost room: int, ghost log: Log) returns (next: Counters)
    requires !c.finished && Follow(room, log, c)
    modifies m`sent
    ensures Turned(room, log, c, Silence, next)
    ensures m.sent == old(m.sent) + LastReplies(room, log + [Silence])
    ensures LastStored(room, log + [Silence]) == []
    ensures !next.finished ==> next.receivedBytes == c.receivedBytes
  {
    hide Follow, LastReplies, LastStored;
    var retries, aborted := CountRetry(m, c.nbRetry);
    next := c.(nbRetry := retries);
    if aborted {
      next := next.(finished := true, receivedBytes := -1);
    }
    FollowRefused(room, log, Silence, c, next);
  }

  lemma ExpectsNext(room: int, log: Log, c: Counters)
    requires Follow(room, log, c) && !c.finished
    ensures c.expectedBlkNumber == BlockNo(Accepted(log) + 1)
  {
  }

  /** One turn of the receive loop. */
  method ReceiveRound(m: Modem, c: Counters, ghost room: int, ghost log: Log)
    returns (next: Counters, ghost event: Event)
    requires m.Valid() && m.Cfg().LineBufferSet() && m.Cfg().LongestBody() <= m.blk.Length
    requires !c.finished && Follow(room, log, c) && Room(m) == room - c.receivedBytes
    modifies m`inp, m`sent, m`readCount, m.blk, m.ramfile`writeOffset, m.ramfile.buffer
    ensures m.Valid() && m.ramfile.Valid() && m.Cfg() == old(m.Cfg())
    ensures Follow(room, log + [event], next)
    ensures Heard(event, m.inp) == Hear(m.Cfg(), Accepted(log), old(m.inp))
    ensures m.sent == old(m.sent) + LastReplies(room, log + [event])
    ensures m.ramfile.Contents() == old(m.ramfile.Contents()) + LastStored(room, log + [event])
    ensures !next.finished ==> 0 <= Room(m) == room - next.receivedBytes
    ensures !next.finished ==> next.receivedBytes > c.receivedBytes ||
                               (next.receivedBytes == c.receivedBytes && next.nbRetry > c.nbRetry)
  {
    hide Accepted, Follow, LastReplies, LastStored, Hear, IsTable, StatusOf, NextCancels;
    ghost var inp, accepted := m.inp, Accepted(log);
    ExpectsNext(room, log, c);
    var received, header := m.GetByte();
    event := Hear(m.Cfg(), accepted, inp).event;
    if received {
      var rcvStatus, blksize, cans, finished :=
        ReceiveByHeader(m, header, c.expectedBlkNumber, c.canCharReceived, accepted, inp);
      next := ConcludeRound(m, rcvStatus, blksize, c, cans, finished, room, log, event);
    } else {
      HearNothing(m.Cfg(), accepted, inp);
      next := SilentRound(m, c, room, log);
    }
  }

  /**
   lxmodem_receive: the log of the rounds is a complete run of what the line delivers, and result,
   file and replies are those of the run.
   */
  method Receive(m: Modem) returns (r: int, ghost log: Log)
    requires m.Valid() && m.Cfg().LineBufferSet() && m.Cfg().LongestBody() <= m.blk.Length
    modifies m`inp, m`sent, m`readCount, m.blk, m.ramfile`writeOffset, m.ramfile.buffer
    ensures m.Valid() && m.Cfg() == old(m.Cfg())
    ensures IsRun(old(Room(m)), log)
    ensures Rounds(log, m.inp) == HearRounds(m.Cfg(), old(m.inp), |log|)
    ensures r == Result(old(Room(m)), log)
    ensures m.ramfile.Contents() == old(m.ramfile.Contents()) + Stored(old(Room(m)), log)
    ensures m.sent == old(m.sent) + [[Preamble(m.Cfg())]] + Replies(old(Room(m)), log)
  {
    hide *;
    ghost var room, cfg, start := Room(m), m.Cfg(), m.inp;
    var c := Counters(1, 0, 0, 0, false);
    FollowStart(m, c);
    ghost var contents := m.ramfile.Contents();
    BuildAndSendPreambule(m);
    ghost var sent := m.sent;
    log := [];
    RecordNothing(room, cfg, start);
    ghost var stored: seq<byte>, replies: seq<seq<byte>> := [], [];
    while !c.finished
      invariant m.Valid() && m.ramfile.Valid() && m.Cfg() == cfg
      invariant Follow(room, log, c) && (!c.finished ==> Room(m) == room - c.receivedBytes)
      invariant Recorded(room, cfg, start, log, m.inp, stored, replies)
      invariant m.ramfile.Contents() == contents + stored
      invariant m.sent == sent + replies
      decreases !c.finished, room - c.receivedBytes, MAX_RETRY - c.nbRetry
    {
      ghost var inp := m.inp;
      ghost var event;
      FollowUnfinished(room, log, c);
      c, event := ReceiveRound(m, c, room, log);
      RecordOneMore(room, cfg, start, log, inp, stored, replies, event, m.inp);
      log := log + [event];
      stored, replies := stored + LastStored(room, log), replies + LastReplies(room, log);
    }
    FollowFinished(room, log, c);
    RunIsRecorded(room, cfg, start, log, m.inp, stored, replies);
    return c.receivedBytes, log;
  }

  lemma FollowStart(m: Modem, c: Counters)
    requires m.Valid() && c == Counters(1, 0, 0, 0, false)
    ensures m.ramfile.Valid() && Room(m) >= 0 && Follow(Room(m), [], c)
  {
  }

  lemma FollowUnfinished(room: int, log: Log, c: Counters)
    requires Follow(room, log, c) && !c.finished
    ensures !Ended(room, log) && c.nbRetry < MAX_RETRY
  {
  }

  lemma FollowFinished(room: int, log: Log, c: Counters)
    requires Follow(room, log, c) && c.finished
    ensures Ended(room, log) && c.receivedBytes == Result(room, log)
  {
  }

  lemma RunIsRecorded(room: int, cfg: Config, start: seq<Reading>, log: Log, rest: seq<Reading>,
                      stored: seq<byte>, replies: seq<seq<byte>>)
    requires Recorded(room, cfg, start, log, rest, stored, replies) && Ended(room, log)
    ensures IsRun(room, log) && Rounds(log, rest) == HearRounds(cfg, start, |log|)
    ensures stored == Stored(room, log) && replies == Replies(room, log)
  {
  }
}
