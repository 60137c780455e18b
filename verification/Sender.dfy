/** The send loop of src/lmodem_tx.c. */
module Sender {
  import opened Bytes
  import opened Crc16
  import opened Detection
  import opened Protocol
  import opened Modem
  import opened SenderLog
  import SenderRuns

  /** lxmodem_decode_preambule: is the receiver's start character the one this mode expects? */
  method DecodePreambule(m: Modem, preambule: byte) returns (ok: bool)
    ensures ok <==> (preambule == NAK && m.opts.Checksum128?) || (preambule == CHAR_C && m.Cfg().SenderUsesCrc())
  {
    ok := false;
    if preambule == NAK {
      if m.opts.Checksum128? {
        ok := true;
      }
    } else if preambule == CHAR_C {
      if m.protocol.Ymodem? || m.opts.Crc128? || m.opts.Crc1k? {
        ok := true;
      }
    }
  }

  /** The blocks of the unread part of the file. */
  ghost function BlocksOf(m: Modem): (blocks: seq<seq<byte>>)
    requires m.Valid()
    reads m`protocol, m`withCrc, m`blk, m`blkSize, m.crc16.crctab, m.ramfile, m.ramfile.buffer
    ensures forall i :: 0 <= i < |blocks| ==> IsBlockSize(|blocks[i]|)
  {
    Chunks(m.Cfg().SenderBlockSize(), m.ramfile.Unread())
  }

  ghost predicate Ready(m: Modem)
    reads m`protocol, m`withCrc, m`blk, m`blkSize, m.crc16.crctab, m.ramfile
  {
    m.Valid() && m.ramfile.readOffset <= m.ramfile.writeOffset && m.Cfg().LongestFrame() <= m.blk.Length
  }

  /** The message kept for another emission. */
  ghost function Kept(m: Modem): seq<byte>
    requires m.Valid()
    reads m`blk, m`blkSize, m.blk, m.crc16.crctab, m.ramfile
  {
    m.blk[..m.blkSize]
  }

  /** The file bytes of the next block, padded, into the line buffer from byte 3 on. */
  method FillData(m: Modem, d: nat, bytesToRead: nat, effectiveBlksize: nat)
    requires m.Valid() && m.ramfile.readOffset <= m.ramfile.writeOffset
    requires IsBlockSize(d) && m.ramfile.Unread() != []
    requires bytesToRead == Min(d, |m.ramfile.Unread()|)
    requires effectiveBlksize == (if bytesToRead <= 128 then 128 else 1024) && 3 + effectiveBlksize <= m.blk.Length
    modifies m.blk, m.ramfile`readOffset
    ensures m.Valid() && m.ramfile.readOffset <= m.ramfile.writeOffset
    ensures m.blk[3..3 + effectiveBlksize] == old(Chunk(d, m.ramfile.Unread()))
    ensures m.blk[..3] == old(m.blk[..3])
    ensures m.ramfile.Unread() == old(Cut(d, m.ramfile.Unread()))
  {
    hide IsTable;
    ghost var file, head := m.ramfile.Unread(), m.blk[..3];
    var remainingBytes := m.ramfile.GetSize();
    var n := m.ramfile.Read(m.blk, 3, bytesToRead);
    ghost var filled := m.blk[..];
    PadWithSub(m, bytesToRead, remainingBytes, effectiveBlksize);
    PaddedInBuffer(m.blk[..], filled, file, bytesToRead, effectiveBlksize);
    assert m.blk[..3] == m.blk[..][..3] && filled[..3] == head;
    assert m.blk[3..3 + effectiveBlksize] == m.blk[..][3..3 + effectiveBlksize];
  }

  /** SUB bytes behind the last of the file, if it does not fill the block. */
  method PadWithSub(m: Modem, bytesToRead: nat, remainingBytes: nat, effectiveBlksize: nat)
    requires m.Valid() && bytesToRead <= remainingBytes && 3 + effectiveBlksize <= m.blk.Length
    requires bytesToRead <= effectiveBlksize && (remainingBytes < effectiveBlksize ==> bytesToRead == remainingBytes)
    requires remainingBytes >= effectiveBlksize ==> bytesToRead == effectiveBlksize
    modifies m.blk
    ensures m.Valid()
    ensures m.blk[..3 + bytesToRead] == old(m.blk[..3 + bytesToRead])
    ensures forall i :: 3 + bytesToRead <= i < 3 + effectiveBlksize ==> m.blk[i] == SUB
  {
    hide IsTable;
    if remainingBytes < effectiveBlksize {
      forall i | 0 <= i < effectiveBlksize - remainingBytes {
        m.blk[3 + bytesToRead + i] := SUB;
      }
    }
  }

  lemma PaddedInBuffer(buf: seq<byte>, filled: seq<byte>, file: seq<byte>, n: nat, size: nat)
    requires n <= |file| && n <= size && 3 + size <= |buf| == |filled|
    requires filled[3..3 + n] == file[..n] && buf[..3 + n] == filled[..3 + n]
    requires forall i :: 3 + n <= i < 3 + size ==> buf[i] == SUB
    ensures buf[3..3 + size] == file[..n] + Repeat(SUB, size - n) && buf[..3] == filled[..3]
  {
    assert buf[3..3 + n] == buf[..3 + n][3..];
    assert filled[3..3 + n] == filled[..3 + n][3..];
    assert buf[..3] == buf[..3 + n][..3] && filled[..3] == filled[..3 + n][..3];
    assert buf[3..3 + size] == buf[3..3 + n] + buf[3 + n..3 + size];
    assert buf[3 + n..3 + size] == Repeat(SUB, size - n);
  }

  /** The check bytes behind the data. */
  method FillCheck(m: Modem, size: nat, withCrc: bool)
    requires m.Valid() && 3 + size + (if withCrc then 2 else 1) <= m.blk.Length
    modifies m.blk
    ensures m.Valid()
    ensures m.blk[..3 + size] == old(m.blk[..3 + size])
    ensures m.blk[3 + size..3 + size + if withCrc then 2 else 1] == old(CheckBytes(withCrc, m.blk[3..3 + size]))
  {
    hide IsTable, Sum, Crc;
    ghost var data := m.blk[3..3 + size];
    if withCrc {
      var hiCrc, loCrc := m.CalculCrc(3, size);
      m.blk[3 + size] := hiCrc;
      m.blk[3 + size + 1] := loCrc;
      assert m.blk[3 + size..3 + size + 2] == [hiCrc, loCrc];
    } else {
      var chksum := m.CalculChksum(3, size);
      m.blk[3 + size] := chksum;
      assert m.blk[3 + size..3 + size + 1] == [chksum];
    }
  }

  /** The start byte and the block number. */
  method FillHead(m: Modem, blkNo: byte, bytesToRead: nat) returns (effectiveBlksize: nat)
    requires m.Valid() && 3 <= m.blk.Length
    modifies m.blk
    ensures m.Valid() && effectiveBlksize == if bytesToRead <= 128 then 128 else 1024
    ensures m.blk[..3] == [if effectiveBlksize == 128 then SOH else STX, blkNo, Complement(blkNo)]
  {
    hide IsTable;
    if bytesToRead <= 128 {
      m.blk[0] := SOH;
      effectiveBlksize := 128;
    } else {
      m.blk[0] := STX;
      effectiveBlksize := 1024;
    }
    m.blk[1] := blkNo;
    m.blk[2] := 255 - blkNo;
  }

  /** The frame of the next block, built in the line buffer. */
  method BuildFrame(m: Modem, blkNo: byte, d: nat, bytesToRead: nat, withCrc: bool) returns (size: nat)
    requires Ready(m) && d == m.Cfg().SenderBlockSize() && withCrc == m.Cfg().SenderUsesCrc()
    requires m.ramfile.Unread() != [] && bytesToRead == Min(d, |m.ramfile.Unread()|)
    modifies m.blk, m.ramfile`readOffset
    ensures Ready(m) && size == |old(Chunk(d, m.ramfile.Unread()))|
    ensures FrameLength(size, withCrc) <= m.blk.Length
    ensures m.blk[..FrameLength(size, withCrc)] == Frame(withCrc, blkNo, old(Chunk(d, m.ramfile.Unread())))
    ensures m.ramfile.Unread() == old(Cut(d, m.ramfile.Unread()))
  {
    hide IsTable, Sum, CrcBytes, CheckBytes;
    ghost var chunk := Chunk(d, m.ramfile.Unread());
    size := FillHead(m, blkNo, bytesToRead);
    ghost var head := m.blk[..3];
    FillData(m, d, bytesToRead, size);
    ghost var unchecked := m.blk[..3 + size];
    assert unchecked[..3] == head && unchecked[3..] == chunk;
    FillCheck(m, size, withCrc);
    FrameInParts(m.blk[..FrameLength(size, withCrc)], unchecked, chunk, withCrc, blkNo);
  }

  function FrameLength(size: nat, crc: bool): nat { 3 + size + if crc then 2 else 1 }

  /** A new item is built from the unread file, sent and kept. */
  method BuildAndSendOneDataBlock(m: Modem, blkNo: byte, defaultBlksize: nat, withCrc: bool)
    returns (isLast: bool, nbEmitted: nat)
    requires Ready(m) && defaultBlksize == m.Cfg().SenderBlockSize() && withCrc == m.Cfg().SenderUsesCrc()
    modifies m`sent, m`blkSize, m.blk, m.ramfile`readOffset
    ensures Ready(m)
    ensures isLast == (old(m.ramfile.Unread()) == [])
    ensures isLast ==> Kept(m) == [EOT] && nbEmitted == 0 && m.ramfile.Unread() == []
    ensures !isLast ==>
              var chunk := Chunk(defaultBlksize, old(m.ramfile.Unread()));
              Kept(m) == Frame(withCrc, blkNo, chunk) && nbEmitted == |chunk| &&
              m.ramfile.Unread() == Cut(defaultBlksize, old(m.ramfile.Unread()))
    ensures m.sent == old(m.sent) + [Kept(m)]
  {
    hide IsTable, Frame, Chunk, Cut;
    nbEmitted := 0;
    var remainingBytes := m.ramfile.GetSize();
    var bytesToRead := if defaultBlksize < remainingBytes then defaultBlksize else remainingBytes;
    if bytesToRead == 0 {
      m.blk[0] := EOT;
      m.blkSize := 1;
    } else {
      var effectiveBlksize := BuildFrame(m, blkNo, defaultBlksize, bytesToRead, withCrc);
      var datablockSize := 3 + effectiveBlksize + 1;
      if withCrc {
        datablockSize := datablockSize + 1;
      }
      m.blkSize := datablockSize;
      nbEmitted := nbEmitted + effectiveBlksize;
    }
    isLast := bytesToRead == 0;
    m.PutChar(m.blk[..m.blkSize]);
  }

  lemma FrameInParts(frame: seq<byte>, unchecked: seq<byte>, chunk: seq<byte>, crc: bool, no: byte)
    requires IsBlockSize(|chunk|) && |frame| == FrameLength(|chunk|, crc)
    requires |unchecked| == 3 + |chunk| && unchecked[3..] == chunk
    requires unchecked[..3] == [if |chunk| == 128 then SOH else STX, no, Complement(no)]
    requires frame[..3 + |chunk|] == unchecked && frame[3 + |chunk|..] == CheckBytes(crc, chunk)
    ensures frame == Frame(crc, no, chunk)
  {
    assert frame == unchecked + CheckBytes(crc, chunk);
    assert unchecked == unchecked[..3] + chunk;
  }

  /** The very bytes of the last item once more. */
  method ReemitPreviousBlock(m: Modem)
    requires m.Valid()
    modifies m`sent
    ensures m.sent == old(m.sent) + [Kept(m)]
  {
    m.PutChar(m.blk[..m.blkSize]);
  }

  /** Up to ten attempts to read one byte. */
  method WaitAnswer(m: Modem) returns (received: bool, b: byte)
    modifies m`inp, m`readCount
    ensures var l := Listen(old(m.inp), MAX_RETRY);
            m.inp == l.rest && l.answer == if received then AnswerOf(b) else NoAnswer
    ensures old(m.readCount) <= m.readCount <= old(m.readCount) + MAX_RETRY
  {
    received, b := false, 0;
    var timeout := 0;
    while !received && timeout < 10
      invariant 0 <= timeout <= 10 && m.readCount == old(m.readCount) + timeout
      invariant received ==> Listen(old(m.inp), MAX_RETRY) == Listened(AnswerOf(b), m.inp)
      invariant !received ==> Listen(old(m.inp), MAX_RETRY) == Listen(m.inp, MAX_RETRY - timeout)
      decreases !received, 10 - timeout
    {
      received, b := m.GetByte();
      timeout := timeout + 1;
    }
  }

  /** The variables of the send loop. */
  datatype Counters = Counters(
    blkNo: byte, retry: nat, isLastBlock: bool, nbEmitted: nat, emittedBytes: int, finished: bool)

  /** A transfer: how the file is cut and checked. */
  datatype Job = Job(cfg: Config, file: seq<byte>) {
    function D(): nat { cfg.SenderBlockSize() }

    function Blocks(): (blocks: seq<seq<byte>>)
      ensures forall i :: 0 <= i < |blocks| ==> IsBlockSize(|blocks[i]|)
    {
      Chunks(D(), file)
    }
  }

  /** The current item is in the line buffer, its blocks are read. */
  ghost predicate ItemKept(job: Job, k: nat, c: Counters, kept: seq<byte>, unread: seq<byte>) {
    k <= |job.Blocks()| && kept == Item(job.cfg, job.Blocks(), k) && c.isLastBlock == (k == |job.Blocks()|) &&
    c.nbEmitted == (if k < |job.Blocks()| then |job.Blocks()[k]| else 0) &&
    unread == RestAfter(job.D(), job.file, k + 1)
  }

  /** The counters, the line buffer and the file say what the history says. */
  ghost predicate Follow(job: Job, log: Answers, c: Counters, kept: seq<byte>, unread: seq<byte>) {
    c.finished == Done(|job.Blocks()|, log) &&
    if c.finished then c.emittedBytes == Result(job.Blocks(), log)
    else
      Acks(log) <= |job.Blocks()| && c.emittedBytes == LengthOf(job.Blocks(), Acks(log)) &&
      c.blkNo == BlockNo(Acks(log) + 1) && c.retry == Misses(log) < MAX_RETRY &&
      if c.retry == 0 then unread == RestAfter(job.D(), job.file, Acks(log))
      else ItemKept(job, Acks(log), c, kept, unread)
  }

  lemma FollowStart(job: Job, kept: seq<byte>)
    ensures Follow(job, [], Counters(1, 0, false, 0, 0, false), kept, job.file)
  {
  }

  /** Building from the unread file gives the item the history calls for. */
  lemma BuiltItem(job: Job, k: nat, c: Counters, kept: seq<byte>, unread: seq<byte>)
    requires k <= |job.Blocks()|
    requires var rest := RestAfter(job.D(), job.file, k);
             c.isLastBlock == (rest == []) &&
             (rest == [] ==> kept == [EOT] && c.nbEmitted == 0 && unread == []) &&
             (rest != [] ==> kept == Frame(job.cfg.SenderUsesCrc(), BlockNo(k + 1), Chunk(job.D(), rest)) &&
                             c.nbEmitted == |Chunk(job.D(), rest)| && unread == Cut(job.D(), rest))
    ensures ItemKept(job, k, c, kept, unread)
  {
    hide Chunk, Frame;
    ChunkAt(job.D(), job.file, k);
  }

  /** What an acknowledgement does. */
  lemma FollowAck(job: Job, log: Answers, c: Counters, next: Counters, kept: seq<byte>, unread: seq<byte>)
    requires !Done(|job.Blocks()|, log) && ItemKept(job, Acks(log), c, kept, unread)
    requires c.emittedBytes == LengthOf(job.Blocks(), Acks(log)) && c.blkNo == BlockNo(Acks(log) + 1)
    requires next == c.(blkNo := (c.blkNo + 1) % 256, retry := 0, finished := c.isLastBlock,
                        emittedBytes := c.emittedBytes + c.nbEmitted)
    ensures Follow(job, log + [Ack], next, kept, unread)
  {
    hide RestAfter, Item, Concat, Chunks, Acks, Misses, Done, LengthOf, job.Blocks;
    var n, k := |job.Blocks()|, Acks(log);
    Extend(n, log, Ack);
    NextNumber(k);
    if k < n {
      LengthNext(job.Blocks(), k);
    } else {
      AllAcked(job.Blocks(), log + [Ack]);
    }
  }

  lemma NextNumber(k: nat)
    ensures (BlockNo(k + 1) + 1) % 256 == BlockNo(k + 2)
  {
  }

  lemma LengthNext(blocks: seq<seq<byte>>, k: nat)
    requires k < |blocks|
    ensures LengthOf(blocks, k + 1) == LengthOf(blocks, k) + |blocks[k]|
  {
  }

  lemma AllAcked(blocks: seq<seq<byte>>, log: Answers)
    requires Acks(log) > |blocks|
    ensures Result(blocks, log) == LengthOf(blocks, |blocks|)
  {
    LengthOfAll(blocks);
  }

  /** What any other answer does, or its absence. */
  lemma FollowMiss(job: Job, log: Answers, a: Answer, c: Counters, next: Counters, kept: seq<byte>, unread: seq<byte>)
    requires !Done(|job.Blocks()|, log) && ItemKept(job, Acks(log), c, kept, unread) && !a.Ack?
    requires c.emittedBytes == LengthOf(job.Blocks(), Acks(log))
    requires c.blkNo == BlockNo(Acks(log) + 1) && c.retry == Misses(log) < MAX_RETRY
    requires next.retry == c.retry + 1 && next.blkNo == c.blkNo && next.isLastBlock == c.isLastBlock &&
             next.nbEmitted == c.nbEmitted &&
             next.finished == (next.retry >= MAX_RETRY || (a.Other? && next.retry >= 2)) &&
             next.emittedBytes == if next.finished then -1 else c.emittedBytes
    ensures Follow(job, log + [a], next, kept, unread)
  {
    hide RestAfter, Item, Concat, Chunks, Acks, Misses, Done, LengthOf, job.Blocks;
    Extend(|job.Blocks()|, log, a);
  }

  ghost predicate Following(m: Modem, job: Job, log: Answers, c: Counters)
    requires m.Valid()
    reads m`blk, m`blkSize, m.blk, m.crc16.crctab, m.ramfile, m.ramfile.buffer
  {
    Follow(job, log, c, Kept(m), m.ramfile.Unread())
  }

  /** First part of a turn: a new item after an acknowledgement, the kept one otherwise. */
  method EmitItem(m: Modem, c: Counters, defaultBlksize: nat, withCrc: bool, ghost job: Job, ghost log: Answers)
    returns (next: Counters)
    requires Ready(m) && m.Cfg() == job.cfg && defaultBlksize == job.D() && withCrc == job.cfg.SenderUsesCrc()
    requires !c.finished && Following(m, job, log, c)
    modifies m`sent, m`blkSize, m.blk, m.ramfile`readOffset
    ensures Ready(m)
    ensures next == c.(isLastBlock := next.isLastBlock, nbEmitted := next.nbEmitted)
    ensures ItemKept(job, Acks(log), next, Kept(m), m.ramfile.Unread())
    ensures m.sent == old(m.sent) + [Item(job.cfg, job.Blocks(), Acks(log))]
  {
    hide IsTable, Frame, Chunk, Cut, Item, RestAfter, Chunks, Done, Acks, Misses;
    if c.retry == 0 {
      var isLast, nbEmitted := BuildAndSendOneDataBlock(m, c.blkNo, defaultBlksize, withCrc);
      next := c.(isLastBlock := isLast, nbEmitted := nbEmitted);
      BuiltItem(job, Acks(log), next, Kept(m), m.ramfile.Unread());
    } else {
      next := c;
      ReemitPreviousBlock(m);
    }
  }

  /** Second part of a turn: what the answer, or its absence, does to the variables. */
  method HandleAnswer(received: bool, ackBytes: byte, c: Counters) returns (next: Counters)
    requires !c.finished && c.retry < MAX_RETRY
    ensures var a := if received then AnswerOf(ackBytes) else NoAnswer;
            if a.Ack? then
              next == c.(blkNo := (c.blkNo + 1) % 256, retry := 0, finished := c.isLastBlock,
                         emittedBytes := if c.isLastBlock then c.emittedBytes else c.emittedBytes + c.nbEmitted)
            else
              next == c.(retry := c.retry + 1, finished := next.finished, emittedBytes := next.emittedBytes) &&
              next.finished == (next.retry >= MAX_RETRY || (a.Other? && next.retry >= 2)) &&
              next.emittedBytes == if next.finished then -1 else c.emittedBytes
  {
    next := c;
    if received {
      if ackBytes == ACK {
        next := next.(blkNo := (c.blkNo + 1) % 256, retry := 0);
        if !c.isLastBlock {
          next := next.(emittedBytes := c.emittedBytes + c.nbEmitted);
        } else {
          next := next.(finished := true);
        }
      } else if ackBytes == NAK {
        next := next.(retry := c.retry + 1);
      } else {
        next := next.(retry := c.retry + 1);
        if next.retry >= 2 {
          next := next.(emittedBytes := -1, finished := true);
        }
      }
    } else {
      next := next.(retry := c.retry + 1);
    }
    if next.retry >= MAX_RETRY {
      next := next.(emittedBytes := -1, finished := true);
    }
  }

  /** The history so far: what it was heard from and what was sent. */
  ghost predicate Recorded(job: Job, start: seq<Reading>, log: Answers, rest: seq<Reading>, out: seq<seq<byte>>) {
    Waits(log, rest) == ListenRounds(start, |log|) &&
    (forall k: nat :: k < |log| ==> !Done(|job.Blocks()|, log[..k])) &&
    out == Emitted(job.cfg, job.Blocks(), log)
  }

  lemma RecordNothing(job: Job, inp: seq<Reading>)
    ensures Recorded(job, inp, [], inp, [])
  {
  }

  lemma RecordOneMore(job: Job, start: seq<Reading>, log: Answers, inp: seq<Reading>, out: seq<seq<byte>>,
                      a: Answer, rest: seq<Reading>)
    requires Recorded(job, start, log, inp, out) && !Done(|job.Blocks()|, log)
    requires Listened(a, rest) == Listen(inp, MAX_RETRY)
    ensures Recorded(job, start, log + [a], rest, out + [Item(job.cfg, job.Blocks(), Acks(log))])
  {
    hide Done, Acks, Misses, Item, Chunks, Emitted, Listen;
    Extend(|job.Blocks()|, log, a);
    EmittedExtends(job.cfg, job.Blocks(), log, a);
  }

  /** One turn of the send loop. */
  method SendRound(m: Modem, c: Counters, defaultBlksize: nat, withCrc: bool, ghost job: Job, ghost log: Answers)
    returns (next: Counters, ghost a: Answer)
    requires Ready(m) && m.Cfg() == job.cfg && defaultBlksize == job.D() && withCrc == job.cfg.SenderUsesCrc()
    requires !c.finished && Following(m, job, log, c)
    modifies m`sent, m`inp, m`readCount, m`blkSize, m.blk, m.ramfile`readOffset
    ensures Ready(m) && m.Cfg() == job.cfg
    ensures Listened(a, m.inp) == Listen(old(m.inp), MAX_RETRY)
    ensures Following(m, job, log + [a], next)
    ensures m.sent == old(m.sent) + [Item(job.cfg, job.Blocks(), Acks(log))]
    ensures m.readCount <= old(m.readCount) + MAX_RETRY
    ensures !next.finished && !a.Ack? ==> next.retry == c.retry + 1
  {
    hide IsTable, Frame, Chunk, Cut, Item, RestAfter, Chunks, Done, Acks, Misses, Listen, ItemKept, Result, LengthOf;
    var with := EmitItem(m, c, defaultBlksize, withCrc, job, log);
    var received, ackBytes := WaitAnswer(m);
    a := if received then AnswerOf(ackBytes) else NoAnswer;
    next := HandleAnswer(received, ackBytes, with);
    LastAddsNothing(job, Acks(log), with, Kept(m), m.ramfile.Unread());
    if a.Ack? {
      FollowAck(job, log, with, next, Kept(m), m.ramfile.Unread());
    } else {
      FollowMiss(job, log, a, with, next, Kept(m), m.ramfile.Unread());
    }
  }

  lemma LastAddsNothing(job: Job, k: nat, c: Counters, kept: seq<byte>, unread: seq<byte>)
    requires ItemKept(job, k, c, kept, unread)
    ensures c.isLastBlock ==> c.nbEmitted == 0
  {
  }

  /**
   lxmode_send_data_blocks: the log of the answers is a complete run of what the line delivers; what
   is sent and returned is that of the run, within ten reads an emission.
   */
  method SendDataBlocks(m: Modem) returns (r: int, ghost log: Answers)
    requires Ready(m)
    modifies m`sent, m`inp, m`readCount, m`blkSize, m.blk, m.ramfile`readOffset
    ensures Ready(m) && m.Cfg() == old(m.Cfg())
    ensures IsRun(|old(BlocksOf(m))|, log)
    ensures Waits(log, m.inp) == ListenRounds(old(m.inp), |log|)
    ensures r == Result(old(BlocksOf(m)), log)
    ensures m.sent == old(m.sent) + Emitted(m.Cfg(), old(BlocksOf(m)), log)
    ensures m.readCount - old(m.readCount) <= 10 * |log| <= 100 * (|old(BlocksOf(m))| + 1)
  {
    hide IsTable, Frame, Chunk, Cut, Item, RestAfter, Chunks, Acks, Misses, Listen, ListenRounds, Emitted, ItemKept,
      Recorded, Following, Result, LengthOf;
    var defaultBlksize, withCrc := 128, false;
    if m.protocol.Xmodem? {
      match m.opts {
        case Checksum128 => defaultBlksize, withCrc := 128, false;
        case Crc128 => defaultBlksize, withCrc := 128, true;
        case Crc1k => defaultBlksize, withCrc := 1024, true;
      }
    } else {
      defaultBlksize, withCrc := 1024, true;
    }
    ghost var job, start, sent := Job(m.Cfg(), m.ramfile.Unread()), m.inp, m.sent;
    var c := Counters(1, 0, false, 0, 0, false);
    log := [];
    ghost var out: seq<seq<byte>> := [];
    Begin(m, job, c);
    while !c.finished
      invariant Ready(m) && m.Cfg() == job.cfg && Following(m, job, log, c)
      invariant Recorded(job, start, log, m.inp, out)
      invariant m.sent == sent + out && m.readCount - old(m.readCount) <= 10 * |log|
      invariant Progresses(job, log, c)
      decreases !c.finished, |job.Blocks()| + 1 - Acks(log), MAX_RETRY - c.retry
    {
      ghost var inp, a := m.inp, Ack;
      c, a := SendRound(m, c, defaultBlksize, withCrc, job, log);
      Turn(m, job, start, log, inp, out, a, c);
      out := out + [Item(job.cfg, job.Blocks(), Acks(log))];
      log := log + [a];
    }
    Finish(m, job, start, log, out, c);
    SenderRuns.RunIsShort(|job.Blocks()|, log);
    return c.emittedBytes, log;
  }

  ghost predicate Progresses(job: Job, log: Answers, c: Counters) {
    !c.finished ==> Acks(log) <= |job.Blocks()| && c.retry < MAX_RETRY && !Done(|job.Blocks()|, log)
  }

  lemma Begin(m: Modem, job: Job, c: Counters)
    requires m.Valid() && job.file == m.ramfile.Unread() && c == Counters(1, 0, false, 0, 0, false)
    ensures Following(m, job, [], c) && Recorded(job, m.inp, [], m.inp, []) && Progresses(job, [], c)
  {
    FollowStart(job, Kept(m));
    RecordNothing(job, m.inp);
  }

  lemma Turn(m: Modem, job: Job, start: seq<Reading>, log: Answers, inp: seq<Reading>, out: seq<seq<byte>>,
             a: Answer, c: Counters)
    requires m.Valid() && Recorded(job, start, log, inp, out) && !Done(|job.Blocks()|, log)
    requires Listened(a, m.inp) == Listen(inp, MAX_RETRY) && Following(m, job, log + [a], c)
    ensures Recorded(job, start, log + [a], m.inp, out + [Item(job.cfg, job.Blocks(), Acks(log))])
    ensures Progresses(job, log + [a], c) && Acks(log + [a]) == Acks(log) + if a.Ack? then 1 else 0
  {
    hide Item, RestAfter, Chunks, ListenRounds, Listen, Emitted, ItemKept, Recorded, Result, LengthOf;
    RecordOneMore(job, start, log, inp, out, a, m.inp);
    Extend(|job.Blocks()|, log, a);
  }

  lemma Finish(m: Modem, job: Job, start: seq<Reading>, log: Answers, out: seq<seq<byte>>, c: Counters)
    requires m.Valid() && Recorded(job, start, log, m.inp, out) && Following(m, job, log, c) && c.finished
    ensures IsRun(|job.Blocks()|, log) && Waits(log, m.inp) == ListenRounds(start, |log|)
    ensures c.emittedBytes == Result(job.Blocks(), log) && out == Emitted(job.cfg, job.Blocks(), log)
  {
  }
}
