/** The receiving side of a YMODEM session, lymodem_receive in src/lmodem_rx.c. */
module YmodemRx {
  import opened Bytes
  import opened Crc16
  import opened Detection
  import opened Protocol
  import opened Modem
  import opened BlockZero
  import opened BlockZeroRx
  import opened Handshake
  import opened Receiver
  import RL = ReceiverLog

  /** What became of the wait for block 0; `body` is the last body read. */
  datatype Opening = Opening(status: Status, blocked: bool, body: seq<byte>, rest: seq<Reading>,
                             replies: seq<seq<byte>>)

  /**
   Bodies of the size announced are checked until one is block 0; the tenth that is not cancels.
   A failed read is neither answered nor counted, so a silent line blocks.
   */
  function HearBlock0(cfg: Config, size: nat, inp: seq<Reading>, retry: nat): (o: Opening)
    requires cfg.protocol.Ymodem?
    ensures o.status.RecvOk? ==> |o.body| == size + 4 && !o.blocked
    decreases |inp|
  {
    if inp == [] then Opening(RecvError, true, [], [], [])
    else if |inp[0]| != size + 4 then HearBlock0(cfg, size, inp[1..], retry)
    else
      var status := Classify(cfg, 255, size, inp[0]);
      if status.RecvOk? then Opening(status, false, inp[0], inp[1..], [[ACK]])
      else
        var reply := [[if status.RecvError? then NAK else ACK]];
        if retry + 1 >= MAX_RETRY then Opening(status, false, inp[0], inp[1..], reply + [RL.CANCEL])
        else Answered(reply, HearBlock0(cfg, size, inp[1..], retry + 1))
  }

  function Answered(replies: seq<seq<byte>>, o: Opening): Opening { o.(replies := replies + o.replies) }

  /** The body in the line buffer, judged and answered. */
  method JudgeBlock0(m: Modem, size: nat, retry: nat) returns (rxStatus: Status, retries: nat, finished: bool)
    requires m.Valid() && m.protocol.Ymodem? && size + 4 <= m.blk.Length && retry < MAX_RETRY
    modifies m`sent
    ensures m.Valid() && rxStatus == Classify(m.Cfg(), 255, size, m.blk[..size + 4])
    ensures retries == (if rxStatus.RecvOk? then retry else retry + 1)
    ensures finished == (rxStatus.RecvOk? || retries >= MAX_RETRY)
    ensures m.sent == old(m.sent) + ([[if rxStatus.RecvError? then NAK else ACK]] +
                                     if retries >= MAX_RETRY then [RL.CANCEL] else [])
  {
    hide IsTable, Classify;
    rxStatus := CheckBlockNoAndCrc(m, 0, size, 255);
    BuildAndSendReply(m, rxStatus);
    retries, finished := retry, rxStatus.RecvOk?;
    if !finished {
      retries := retry + 1;
      if retries >= 10 {
        BuildAndSendCancel(m);
        finished := true;
      }
    }
  }

  method ReceiveBlock0(m: Modem, size: nat) returns (rxStatus: Status, blocked: bool)
    requires m.Valid() && m.protocol.Ymodem? && size + 4 <= m.blk.Length
    modifies m`inp, m`sent, m`readCount, m.blk
    ensures m.Valid()
    ensures var o := HearBlock0(m.Cfg(), size, old(m.inp), 0);
            rxStatus == o.status && blocked == o.blocked && m.inp == o.rest && m.sent == old(m.sent) + o.replies &&
            (rxStatus.RecvOk? ==> m.blk[..size + 4] == o.body) && m.blk[size + 4..] == old(m.blk[size + 4..])
  {
    hide IsTable, Classify, HearBlock0;
    rxStatus, blocked := RecvError, false;
    var finished, retry := false, 0;
    ghost var cfg, start := m.Cfg(), m.inp;
    ghost var whole, replies: seq<seq<byte>> := HearBlock0(cfg, size, start, 0), [];
    assert Answered([], whole) == whole;
    while !finished
      invariant m.Valid() && m.Cfg() == cfg && m.sent == old(m.sent) + replies
      invariant m.blk[size + 4..] == old(m.blk[size + 4..])
      invariant !finished ==> !blocked && retry < MAX_RETRY
      invariant !finished ==> whole == Answered(replies, HearBlock0(cfg, size, m.inp, retry))
      invariant finished ==> rxStatus == whole.status && blocked == whole.blocked && m.inp == whole.rest
      invariant finished ==> replies == whole.replies && (rxStatus.RecvOk? ==> m.blk[..size + 4] == whole.body)
      decreases !finished, |m.inp|
    {
      ghost var inp, before, r := m.inp, retry, replies;
      var exhausted := m.inp == [];
      var received := m.GetBlock(2 + size + 2);
      if received {
        rxStatus, retry, finished := JudgeBlock0(m, size, retry);
        ghost var reply :=
          [[if rxStatus.RecvError? then NAK else ACK]] + if retry >= MAX_RETRY then [RL.CANCEL] else [];
        replies := r + reply;
        SentInParts(old(m.sent), r, reply);
      } else if exhausted {
        rxStatus, finished, blocked := RecvError, true, true;
      }
      HearOneBody(cfg, size, inp, before, r);
    }
  }

  lemma SentInParts(a: seq<seq<byte>>, b: seq<seq<byte>>, c: seq<seq<byte>>)
    ensures (a + b) + c == a + (b + c)
  {
  }

  lemma HearOneBody(cfg: Config, size: nat, inp: seq<Reading>, retry: nat, replies: seq<seq<byte>>)
    requires cfg.protocol.Ymodem?
    ensures var o := Answered(replies, HearBlock0(cfg, size, inp, retry));
            if inp == [] then o == Opening(RecvError, true, [], [], replies)
            else if |inp[0]| != size + 4 then o == Answered(replies, HearBlock0(cfg, size, inp[1..], retry))
            else
              var status := Classify(cfg, 255, size, inp[0]);
              var reply := [[if status.RecvError? then NAK else ACK]];
              if status.RecvOk? then o == Opening(status, false, inp[0], inp[1..], replies + (reply + []))
              else if retry + 1 >= MAX_RETRY then
                o == Opening(status, false, inp[0], inp[1..], replies + (reply + [RL.CANCEL]))
              else o == Answered(replies + (reply + []), HearBlock0(cfg, size, inp[1..], retry + 1))
  {
    hide Classify;
  }

  /** The first byte picks the size of block 0; any other byte ends the session. */
  function Open(cfg: Config, inp: seq<Reading>): (o: Opening)
    requires cfg.protocol.Ymodem?
    ensures o.status.RecvOk? ==> 4 <= |o.body| <= 1028 && !o.blocked
  {
    var w := Catch(inp, 10);
    if w.found && w.b == SOH then HearBlock0(cfg, 128, w.rest, 0)
    else if w.found && w.b == STX then HearBlock0(cfg, 1024, w.rest, 0)
    else Opening(RecvError, false, [], w.rest, [])
  }

  /** The wait for block 0, whose body replaces the start of the line buffer. */
  method AwaitBlock0(m: Modem) returns (rxStatus: Status, blocked: bool)
    requires m.Valid() && m.protocol.Ymodem? && 1028 <= m.blk.Length
    modifies m`inp, m`sent, m`readCount, m.blk
    ensures m.Valid()
    ensures var o := Open(m.Cfg(), old(m.inp));
            rxStatus == o.status && blocked == o.blocked && m.inp == o.rest && m.sent == old(m.sent) + o.replies &&
            (rxStatus.RecvOk? ==> m.blk[2..] == o.body[2..] + old(m.blk[..])[|o.body|..])
  {
    hide IsTable, HearBlock0;
    rxStatus, blocked := RecvError, false;
    var received, timeout := false, 0;
    ghost var start, w, buf := m.inp, Catch(m.inp, 10), m.blk[..];
    while !received && timeout < 10
      invariant m.Valid() && 0 <= timeout <= 10
      invariant !received ==> rxStatus == RecvError && !blocked && m.sent == old(m.sent) && m.blk[..] == buf
      invariant !received ==> Catch(m.inp, 10 - timeout) == w
      invariant received ==> w.found
      invariant received ==>
                  var o := Open(m.Cfg(), start);
                  rxStatus == o.status && blocked == o.blocked && m.inp == o.rest &&
                  m.sent == old(m.sent) + o.replies &&
                  (rxStatus.RecvOk? ==> m.blk[2..] == o.body[2..] + buf[|o.body|..])
      decreases !received, 10 - timeout
    {
      var startBlock0;
      received, startBlock0 := m.GetByte();
      if received {
        if startBlock0 == SOH {
          rxStatus, blocked := ReceiveBlock0(m, 128);
          BodyOverBuffer(m.blk[..], buf, 132);
        } else if startBlock0 == STX {
          rxStatus, blocked := ReceiveBlock0(m, 1024);
          BodyOverBuffer(m.blk[..], buf, 1028);
        }
      }
      timeout := timeout + 1;
    }
  }

  lemma BodyOverBuffer(now: seq<byte>, before: seq<byte>, n: nat)
    requires 2 <= n <= |now| == |before| && now[n..] == before[n..]
    ensures now[2..] == now[..n][2..] + before[n..]
  {
  }

  datatype Next = Next(replies: seq<seq<byte>>, rest: seq<Reading>)

  /**
   The block after a file: an empty name is acknowledged, another file is refused.  A byte that starts
   no block is answered from byte 2 of what the line buffer still holds.
   */
  function NextFile(inp: seq<Reading>, tries: nat, stale: byte): Next {
    if tries == 0 then Next([], inp)
    else if inp == [] || |inp[0]| != 1 then NextFile(Tail(inp), tries - 1, stale)
    else if inp[0][0] == SOH || inp[0][0] == STX then
      var n := if inp[0][0] == SOH then 132 else 1028;
      var after := inp[1..];
      if after == [] || |after[0]| != n then NextFile(Tail(after), tries - 1, stale)
      else Next(NextReply(after[0][2]), after[1..])
    else Next(NextReply(stale), inp[1..])
  }

  function NextReply(b: byte): seq<seq<byte>> { if b == 0 then [[ACK]] else [RL.CANCEL] }

  method BlockNextFile(m: Modem)
    requires m.Valid() && m.protocol.Ymodem? && 1028 <= m.blk.Length
    modifies m`inp, m`sent, m`readCount, m.blk
    ensures m.Valid()
    ensures var n := NextFile(old(m.inp), 10, m.blk[2]);
            m.inp == n.rest && m.sent == old(m.sent) + ([[CHAR_C]] + n.replies)
  {
    hide IsTable, NextFile;
    BuildAndSendPreambule(m);
    ghost var sent, start := m.sent, m.inp;
    NextFileStarts(start);
    var received, timeout := false, 0;
    while !received && timeout < 10
      invariant m.Valid() && 0 <= timeout <= 10
      invariant !received ==> m.sent == sent && Continues(start, m.inp, 10 - timeout)
      invariant received ==> m.inp == NextFile(start, 10, m.blk[2]).rest
      invariant received ==> m.sent == sent + NextFile(start, 10, m.blk[2]).replies
      decreases !received, 10 - timeout
    {
      ghost var inp := m.inp;
      NextFileStep(start, inp, 10 - timeout);
      var startBlock0;
      received, startBlock0 := m.GetByte();
      if received {
        if startBlock0 == SOH {
          received := m.GetBlock(132);
        } else if startBlock0 == STX {
          received := m.GetBlock(1028);
        }
        if received {
          if m.blk[2] == 0 {
            BuildAndSendReply(m, RecvOk);
          } else {
            BuildAndSendCancel(m);
          }
        }
      }
      timeout := timeout + 1;
    }
    if !received { NextFileEnds(start, m.inp, m.blk[2]); }
  }

  /** So many attempts are left, whatever the line buffer holds. */
  ghost predicate Continues(start: seq<Reading>, inp: seq<Reading>, tries: nat) {
    forall b :: NextFile(start, 10, b) == NextFile(inp, tries, b)
  }

  lemma NextFileStarts(start: seq<Reading>)
    ensures Continues(start, start, 10)
  {
  }

  lemma NextFileEnds(start: seq<Reading>, inp: seq<Reading>, b: byte)
    requires Continues(start, inp, 0)
    ensures NextFile(start, 10, b) == Next([], inp)
  {
  }

  /** One attempt. */
  lemma NextFileStep(start: seq<Reading>, inp: seq<Reading>, tries: nat)
    requires tries > 0 && Continues(start, inp, tries)
    ensures inp == [] || |inp[0]| != 1 ==> Continues(start, Tail(inp), tries - 1)
    ensures inp != [] && |inp[0]| == 1 ==>
              if inp[0][0] == SOH || inp[0][0] == STX then
                var n := if inp[0][0] == SOH then 132 else 1028;
                var after := inp[1..];
                if after == [] || |after[0]| != n then Continues(start, Tail(after), tries - 1)
                else forall b :: NextFile(start, 10, b) == Next(NextReply(after[0][2]), after[1..])
              else forall b :: NextFile(start, 10, b) == Next(NextReply(b), inp[1..])
  {
  }

  /** What a receiving session leads to, before the file is cut to its size. */
  datatype Reception = Reception(r: int, blocked: bool, fd: FileData, stored: seq<byte>, rest: seq<Reading>,
                                 out: seq<seq<byte>>)

  /** The metadata after block 0, whose body replaces the start of the line buffer; does a transfer follow? */
  function Opened(o: Opening, fd: FileData, buf: seq<byte>): Decoded
    requires fd.filenameSize > 0 && (o.status.RecvOk? ==> 4 <= |o.body| <= |buf|)
  {
    if o.status.RecvOk? then Decode(o.body[2..] + buf[|o.body|..], fd.filenameSize) else Decoded(false, fd)
  }

  /**
   A whole receiving session, around a data transfer with the given rounds: from the line buffer before
   it, and byte 2 of the line buffer after it.
   */
  ghost function Session(cfg: Config, room: int, fd: FileData, inp: seq<Reading>, buf: seq<byte>, log: RL.Log,
                         stale: byte): Reception
    requires cfg.protocol.Ymodem? && fd.filenameSize > 0 && 1028 <= |buf|
  {
    var o := Open(cfg, inp);
    var d := Opened(o, fd, buf);
    if !d.ok then Reception(-1, o.blocked, d.fd, [], o.rest, [[CHAR_C]] + o.replies)
    else
      var n := NextFile(RL.HearRounds(cfg, o.rest, |log|).rest, 10, stale);
      Reception(RL.Result(room, log), false, d.fd, RL.Stored(room, log), n.rest,
                [[CHAR_C]] + o.replies + ([[CHAR_C]] + RL.Replies(room, log)) + ([[CHAR_C]] + n.replies))
  }

  /** The log of the data transfer, if block 0 leads to one, is a run of what follows block 0. */
  ghost predicate IsTransfer(cfg: Config, room: int, fd: FileData, inp: seq<Reading>, buf: seq<byte>, log: RL.Log)
    requires cfg.protocol.Ymodem? && fd.filenameSize > 0 && 1028 <= |buf|
  {
    Opened(Open(cfg, inp), fd, buf).ok ==>
      RL.IsRun(room, log) && log == RL.HearRounds(cfg, Open(cfg, inp).rest, |log|).log
  }

  lemma SentInTurn(a: seq<seq<byte>>, b: seq<seq<byte>>, c: seq<seq<byte>>, d: seq<seq<byte>>, e: seq<seq<byte>>,
                   f: seq<seq<byte>>, abc: seq<seq<byte>>)
    requires abc == a + (b + c)
    ensures abc + d + e + f == a + (b + c + (d + e) + f)
  {
  }

  method ReceiveFile(m: Modem) returns (r: int, blocked: bool, ghost log: RL.Log)
    requires m.Valid() && m.protocol.Ymodem? && m.Cfg().LineBufferSet() && 1028 <= m.blk.Length
    requires m.fileData.filenameSize > 0
    modifies m`inp, m`sent, m`readCount, m`fileData, m.blk, m.ramfile`writeOffset, m.ramfile.buffer
    ensures m.Valid() && m.Cfg() == old(m.Cfg())
    ensures IsTransfer(m.Cfg(), old(Room(m)), old(m.fileData), old(m.inp), old(m.blk[..]), log)
    ensures var s := Session(m.Cfg(), old(Room(m)), old(m.fileData), old(m.inp), old(m.blk[..]), log, m.blk[2]);
            r == s.r && blocked == s.blocked && m.fileData == s.fd && m.inp == s.rest &&
            m.sent == old(m.sent) + s.out && m.ramfile.Contents() == old(m.ramfile.Contents()) + s.stored
  {
    hide IsTable, Open, Decode, NextFile, RL.IsRun, RL.HearRounds, RL.Result, RL.Stored, RL.Replies;
    r, log := -1, [];
    BuildAndSendPreambule(m);
    var rxStatus;
    rxStatus, blocked := AwaitBlock0(m);
    SentInParts(old(m.sent), [[CHAR_C]], Open(m.Cfg(), old(m.inp)).replies);
    if rxStatus.RecvOk? {
      var block0Ok := DecodeBlock0(m);
      if block0Ok {
        ghost var soFar := m.sent;
        r, log := Receive(m);
        ghost var after := m.inp;
        BlockNextFile(m);
        SentInTurn(old(m.sent), [[CHAR_C]], Open(m.Cfg(), old(m.inp)).replies, [[CHAR_C]],
                   RL.Replies(old(Room(m)), log), [[CHAR_C]] + NextFile(after, 10, m.blk[2]).replies, soFar);
      }
    }
  }

  /** Where the file ends after a session: cut, or stretched, to a valid size that the buffer can hold. */
  function EndOfFile(r: int, fd: FileData, written: nat, maxSize: nat): nat {
    if r != 0 && fd.sizeValid && fd.size <= maxSize then fd.size else written
  }

  /** The size of block 0 does not matter: it is not valid, not within the buffer, or the true one. */
  predicate SizeIsIdle(fd: FileData, written: nat, maxSize: nat) {
    !fd.sizeValid || fd.size > maxSize || fd.size == written
  }

  /**
   lymodem_receive.  The size is applied whenever the result is not zero; carried unsigned, -1 counts
   as greater than zero.  So the file is what was stored exactly if the result is zero or the size idle,
   even after a failure.
   */
  method YmodemReceive(m: Modem) returns (r: int, blocked: bool, ghost log: RL.Log)
    requires m.Valid() && m.protocol.Ymodem? && m.Cfg().LineBufferSet() && 1028 <= m.blk.Length
    requires m.fileData.filenameSize > 0
    modifies m`inp, m`sent, m`readCount, m`fileData, m.blk, m.ramfile`writeOffset, m.ramfile.buffer
    ensures m.Valid() && m.Cfg() == old(m.Cfg())
    ensures IsTransfer(m.Cfg(), old(Room(m)), old(m.fileData), old(m.inp), old(m.blk[..]), log)
    ensures var s := Session(m.Cfg(), old(Room(m)), old(m.fileData), old(m.inp), old(m.blk[..]), log, m.blk[2]);
            var file := old(m.ramfile.Contents()) + s.stored;
            r == s.r && blocked == s.blocked && m.fileData == s.fd && m.inp == s.rest &&
            m.sent == old(m.sent) + s.out &&
            (blocked ==> m.ramfile.Contents() == file) &&
            (!blocked ==>
               m.ramfile.writeOffset == EndOfFile(r, s.fd, |file|, m.ramfile.maxSize) &&
               (m.ramfile.writeOffset <= |file| ==> m.ramfile.Contents() == file[..m.ramfile.writeOffset]) &&
               (m.ramfile.Contents() == file <==> r == 0 || SizeIsIdle(s.fd, |file|, m.ramfile.maxSize)))
  {
    hide IsTable, IsTransfer, Session;
    r, blocked, log := ReceiveFile(m);
    ghost var file := m.ramfile.Contents();
    assert file == file[..|file|];
    if !blocked && r != 0 {
      if m.fileData.sizeValid {
        var _ := m.ramfile.SetWriteOffset(m.fileData.size);
      }
    }
    assert |m.ramfile.Contents()| == m.ramfile.writeOffset;
  }

  // ------------------------------------------------------------------- the session, in bytes

  /** A body of the right length that is neither block 0 nor its predecessor. */
  ghost predicate IsSpoilt(cfg: Config, size: nat, body: seq<byte>)
    requires cfg.protocol.Ymodem?
  {
    |body| == size + 4 && Classify(cfg, 255, size, body).RecvError?
  }

  /** Up to nine spoilt bodies are answered with a NAK each; block 0 behind them is taken and answered with an ACK. */
  lemma {:induction false} SpoiltThenBlock0(cfg: Config, spoilt: seq<seq<byte>>, data: seq<byte>, rest: seq<Reading>,
                                            retry: nat)
    requires cfg.protocol.Ymodem? && |spoilt| + retry <= 9
    requires forall i :: 0 <= i < |spoilt| ==> IsSpoilt(cfg, |data|, spoilt[i])
    ensures HearBlock0(cfg, |data|, spoilt + ([[0x00, 0xff] + data + CrcBytes(data)] + rest), retry) ==
            Opening(RecvOk, false, [0x00, 0xff] + data + CrcBytes(data), rest, Repeat([0x15], |spoilt|) + [[0x06]])
    decreases |spoilt|
  {
    hide CrcBytes;
    var body := [0x00, 0xff] + data + CrcBytes(data);
    var inp := spoilt + ([body] + rest);
    if spoilt == [] {
      assert inp[0] == body && inp[1..] == rest;
      Block0IsOk(cfg, data);
      assert Repeat([0x15], 0) + [[0x06]] == [[0x06]];
    } else {
      assert inp[0] == spoilt[0] && inp[1..] == spoilt[1..] + ([body] + rest);
      SpoiltThenBlock0(cfg, spoilt[1..], data, rest, retry + 1);
      NakFirst(|spoilt|, [[0x06]]);
    }
  }

  lemma NakFirst(f: nat, more: seq<seq<byte>>)
    requires f > 0
    ensures [[0x15]] + (Repeat([0x15], f - 1) + more) == Repeat([0x15], f) + more
  {
  }

  lemma Block0IsOk(cfg: Config, data: seq<byte>)
    requires cfg.protocol.Ymodem?
    ensures Classify(cfg, 255, |data|, [0x00, 0xff] + data + CrcBytes(data)).RecvOk?
  {
    hide CrcBytes;
    var body := [0x00, 0xff] + data + CrcBytes(data);
    assert DataOf(body, |data|) == data && body == Body(true, 0, data);
  }

  /** The tenth spoilt body cancels, after ten NAKs. */
  lemma {:induction false} TenSpoiltCancel(cfg: Config, size: nat, spoilt: seq<seq<byte>>, rest: seq<Reading>,
                                           retry: nat)
    requires cfg.protocol.Ymodem? && |spoilt| + retry == 10 && spoilt != []
    requires forall i :: 0 <= i < |spoilt| ==> IsSpoilt(cfg, size, spoilt[i])
    ensures var o := HearBlock0(cfg, size, spoilt + rest, retry);
            o.status == RecvError && !o.blocked && o.rest == rest &&
            o.replies == Repeat([0x15], |spoilt|) + [[0x18, 0x18]]
    decreases |spoilt|
  {
    hide Classify;
    var inp := spoilt + rest;
    assert inp[0] == spoilt[0] && inp[1..] == spoilt[1..] + rest;
    if |spoilt| == 1 {
      assert inp[1..] == rest && [[0x15]] + [[0x18, 0x18]] == Repeat([0x15], 1) + [[0x18, 0x18]];
    } else {
      TenSpoiltCancel(cfg, size, spoilt[1..], rest, retry + 1);
      NakFirst(|spoilt|, [[0x18, 0x18]]);
    }
  }

  /** A read that fails is neither answered nor counted. */
  lemma FailedReadDropped(cfg: Config, size: nat, reading: Reading, rest: seq<Reading>, retry: nat)
    requires cfg.protocol.Ymodem? && |reading| != size + 4
    ensures HearBlock0(cfg, size, [reading] + rest, retry) == HearBlock0(cfg, size, rest, retry)
    ensures HearBlock0(cfg, size, [], retry).blocked
  {
    assert ([reading] + rest)[0] == reading && ([reading] + rest)[1..] == rest;
  }

  /** A session opens with 0x01 or 0x02; any other byte, or no byte in ten reads, ends it without an answer. */
  lemma OpenInBytes(cfg: Config, quiet: seq<Reading>, b: byte, rest: seq<Reading>)
    requires cfg.protocol.Ymodem? && Quiet(quiet)
    ensures |quiet| < 10 ==>
              Open(cfg, quiet + ([[b]] + rest)) ==
              if b == 0x01 then HearBlock0(cfg, 128, rest, 0)
              else if b == 0x02 then HearBlock0(cfg, 1024, rest, 0)
              else Opening(RecvError, false, [], rest, [])
    ensures |quiet| == 10 ==> Open(cfg, quiet + rest) == Opening(RecvError, false, [], rest, [])
  {
    hide Catch, HearBlock0;
    CatchInBytes(quiet, b, rest, 10);
  }

  /** Failed attempts are nothing, and ten of them are the end. */
  lemma {:induction false} QuietNextFile(quiet: seq<Reading>, rest: seq<Reading>, tries: nat, stale: byte)
    requires Quiet(quiet) && |quiet| <= tries
    ensures NextFile(quiet + rest, tries, stale) == NextFile(rest, tries - |quiet|, stale)
    ensures |quiet| == tries ==> NextFile(quiet + rest, tries, stale) == Next([], rest)
    decreases |quiet|
  {
    var inp := quiet + rest;
    if quiet == [] {
      assert inp == rest;
    } else {
      assert inp[0] == quiet[0] && inp[1..] == quiet[1..] + rest;
      QuietNextFile(quiet[1..], rest, tries - 1, stale);
    }
  }

  /** The block behind a file: an empty name is acknowledged, and another file cancelled. */
  lemma NextFileInBytes(quiet: seq<Reading>, start: byte, body: seq<byte>, rest: seq<Reading>, stale: byte)
    requires Quiet(quiet) && |quiet| < 10
    requires (start == 0x01 && |body| == 132) || (start == 0x02 && |body| == 1028)
    ensures NextFile(quiet + ([[start]] + ([body] + rest)), 10, stale) ==
            Next(if body[2] == 0 then [[0x06]] else [[0x18, 0x18]], rest)
  {
    var inp := [[start]] + ([body] + rest);
    QuietNextFile(quiet, inp, 10, stale);
    assert inp[0] == [start] && inp[1..] == [body] + rest && inp[1..][0] == body && inp[1..][1..] == rest;
  }

  /** A body of another length is one more failed attempt. */
  lemma BrokenNextFile(start: byte, reading: Reading, rest: seq<Reading>, tries: nat, stale: byte)
    requires tries > 0 && ((start == 0x01 && |reading| != 132) || (start == 0x02 && |reading| != 1028))
    ensures NextFile([[start]] + ([reading] + rest), tries, stale) == NextFile(rest, tries - 1, stale)
  {
    var inp := [[start]] + ([reading] + rest);
    assert inp[0] == [start] && inp[1..] == [reading] + rest && inp[1..][0] == reading && inp[1..][1..] == rest;
  }

  /** A byte that starts no block is answered the same way, from byte 2 of the line buffer. */
  lemma NoiseForNextFile(b: byte, rest: seq<Reading>, stale: byte)
    requires b != 0x01 && b != 0x02
    ensures NextFile([[b]] + rest, 10, stale) == Next(if stale == 0 then [[0x06]] else [[0x18, 0x18]], rest)
  {
    assert ([[b]] + rest)[0] == [b] && ([[b]] + rest)[1..] == rest;
  }
}
