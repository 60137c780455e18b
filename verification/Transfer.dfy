/** The two loops themselves, run on what a strict line brings them. */
module Transfer {
  import opened Bytes
  import opened Crc16
  import opened Protocol
  import opened Modem
  import opened Agreement
  import opened Link
  import opened Sender
  import RL = ReceiverLog
  import SL = SenderLog
  import Tx = YmodemTx
  import Handshake
  import Receiver

  /** Two contexts that share no memory. */
  ghost predicate Apart(a: Modem, b: Modem)
    reads a`blk, b`blk, a.ramfile`buffer, b.ramfile`buffer
  {
    a != b && a.ramfile != b.ramfile && a.crc16 != b.crc16 && a.crc16.crctab != b.crc16.crctab &&
    {a.blk, a.ramfile.buffer} !! {b.blk, b.ramfile.buffer} &&
    b.crc16.crctab as object !in {a.blk as object, a.ramfile.buffer} &&
    a.crc16.crctab as object !in {b.blk as object, b.ramfile.buffer}
  }

  /** The mode, the blocks and the room of a transfer from tx to rx. */
  ghost function SettingOf(tx: Modem, rx: Modem): Setting
    requires tx.Valid()
    reads tx`protocol, tx`withCrc, tx`blk, tx`blkSize, tx.crc16.crctab, tx.ramfile, tx.ramfile.buffer
    reads rx`protocol, rx`withCrc, rx.ramfile
  {
    Setting(tx.Cfg(), rx.Cfg(), BlocksOf(tx), Receiver.Room(rx), true, 0)
  }

  lemma SettingIsValid(tx: Modem, rx: Modem)
    requires tx.Valid() && Interoperable(tx.Cfg(), rx.Cfg())
    ensures SettingOf(tx, rx).Valid()
    ensures SL.Concat(SettingOf(tx, rx).blocks) == SL.Padded(tx.Cfg().SenderBlockSize(), tx.ramfile.Unread())
  {
  }

  /**
   The two loops together: if lxmode_send_data_blocks returns a count, lxmodem_receive returns the same
   one, the length of the padded file, and has added exactly the padded file.  If the receiver is done,
   the results differ exactly for an orphaned sender.  What the two loops have sent is what the line
   carried: the items of its steps one way, the replies to what was heard the other way.
   */
  method RunTransfer(tx: Modem, rx: Modem, ghost steps: seq<Step>, ghost txMore: seq<Reading>,
                     ghost rxMore: seq<Reading>)
    returns (sentBytes: int, receivedBytes: int)
    requires Apart(tx, rx) && Ready(tx) && rx.Valid() && Interoperable(tx.Cfg(), rx.Cfg())
    requires rx.Cfg().LineBufferSet() && rx.Cfg().LongestBody() <= rx.blk.Length
    requires Possible(SettingOf(tx, rx), steps)
    requires var s := After(SettingOf(tx, rx), steps);
             SenderDone(SettingOf(tx, rx), s) && tx.inp == s.txIn + txMore && rx.inp == s.rxIn + rxMore
    modifies tx`sent, tx`inp, tx`readCount, tx`blkSize, tx.blk, tx.ramfile`readOffset
    modifies rx`inp, rx`sent, rx`readCount, rx.blk, rx.ramfile`writeOffset, rx.ramfile.buffer
    ensures rx.ramfile.Valid()
    ensures sentBytes >= 0 ==>
              var padded := old(SL.Padded(tx.Cfg().SenderBlockSize(), tx.ramfile.Unread()));
              sentBytes == receivedBytes == |padded| && rx.ramfile.Contents() == old(rx.ramfile.Contents()) + padded
    ensures tx.sent == old(tx.sent) + old(Sends(SettingOf(tx, rx), steps))
    ensures var p := old(SettingOf(tx, rx));
            ReceiverDone(p, After(p, steps)) ==>
              (sentBytes == receivedBytes <==> !Orphaned(p, After(p, steps))) &&
              rx.sent == old(rx.sent) + [[Receiver.Preamble(rx.Cfg())]] + RL.Replies(p.room, After(p, steps).rx)
  {
    hide IsTable, Possible, After, SL.Done, SL.Concat, SL.Acks, SL.Emitted, SL.Result, RL.Result, RL.Stored, RL.Replies,
      BlocksOf, Sends, Orphaned, RL.Ended;
    ghost var p, s := SettingOf(tx, rx), After(SettingOf(tx, rx), steps);
    SettingIsValid(tx, rx);
    ghost var txLog, rxLog;
    sentBytes, txLog := SendDataBlocks(tx);
    receivedBytes, rxLog := Receiver.Receive(rx);
    Together(p, steps, txMore, rxMore, txLog, rxLog);
  }

  /** What holds of the two runs, from the theorems about the line. */
  lemma Together(p: Setting, steps: seq<Step>, txMore: seq<Reading>, rxMore: seq<Reading>, txLog: SL.Answers,
                 rxLog: RL.Log)
    requires p.Valid() && p.strict && Possible(p, steps) && SenderDone(p, After(p, steps))
    requires SenderRan(p, After(p, steps).txIn + txMore, txLog)
    requires ReceiverRan(p, After(p, steps).rxIn + rxMore, rxLog)
    ensures SL.Result(p.blocks, txLog) >= 0 ==>
              RL.Result(p.room, rxLog) == SL.Result(p.blocks, txLog) == |SL.Concat(p.blocks)| &&
              RL.Stored(p.room, rxLog) == SL.Concat(p.blocks)
    ensures SL.Emitted(p.txCfg, p.blocks, txLog) == Sends(p, steps)
    ensures ReceiverDone(p, After(p, steps)) ==>
              rxLog == After(p, steps).rx &&
              (SL.Result(p.blocks, txLog) == RL.Result(p.room, rxLog) <==> !Orphaned(p, After(p, steps)))
  {
    hide SenderRan, ReceiverRan, Possible, After, SL.Emitted, RL.Ended, SL.Done, Orphaned, Sends, RL.Result, RL.Stored,
      SL.Concat, ReceiverHeard, SenderHeard, SL.Acks, TakenInOrder;
    var s := After(p, steps);
    InvariantHolds(p, steps);
    SenderRunIsHistory(p, s, txMore, txLog);
    LineCarriesItems(p, steps);
    assert SL.Emitted(p.txCfg, p.blocks, txLog) + [] == SL.Emitted(p.txCfg, p.blocks, txLog);
    if SL.Result(p.blocks, txLog) >= 0 {
      OneWayAgreement(p, steps, txMore, rxMore, txLog, rxLog);
    }
    if ReceiverDone(p, s) {
      ReceiverRunIsHistory(p, s, rxMore, rxLog);
      AgreeUnlessOrphaned(p, steps);
    }
  }

  // ------------------------------------------------------------------ from the start character on

  /** The receiver asks for the checksum with 0x15, for the CRC with 0x43. */
  lemma StartCharacter(rx: Config)
    ensures Receiver.Preamble(rx) == if rx.protocol.Xmodem? && rx.opts.Checksum128? then 0x15 else 0x43
  {
  }

  /** The sender takes the start character of a receiver exactly if both use the same check. */
  lemma StartsTogetherIff(tx: Config, rx: Config)
    requires tx.protocol == rx.protocol
    ensures Tx.Compatible(tx, Receiver.Preamble(rx)) <==>
            tx.protocol.Ymodem? || tx.opts.Checksum128? == rx.opts.Checksum128?
  {
  }

  /** With the other check, the sender cancels at the start character and returns -1, and no transfer starts. */
  lemma StartsApart(tx: Config, rx: Config, blocks: seq<seq<byte>>, rest: seq<Reading>, log: SL.Answers)
    requires tx.protocol.Xmodem? && rx.protocol.Xmodem? && tx.opts.Checksum128? != rx.opts.Checksum128?
    requires forall i :: 0 <= i < |blocks| ==> IsBlockSize(|blocks[i]|)
    ensures Tx.Transfer(tx, blocks, [[Receiver.Preamble(rx)]] + rest, log) ==
            Tx.Stage(-1, true, false, 0, rest, [[0x18, 0x18]])
  {
    hide Tx.Transfer, Tx.Compatible, Receiver.Preamble;
    var b := Receiver.Preamble(rx);
    StartsTogetherIff(tx, rx);
    Tx.StartInBytes(tx, blocks, [], b, rest, log);
    assert [] + ([[b]] + rest) == [[b]] + rest;
  }

  /** What the sender makes of the right start character and the rest of its line. */
  lemma StartHeard(p: Setting, b: byte, inp: seq<Reading>, log: SL.Answers)
    requires p.Sized() && Tx.Compatible(p.txCfg, b) && Tx.IsTransfer(p.txCfg, p.blocks, [[b]] + inp, log)
    ensures SenderRan(p, inp, log)
    ensures Tx.Transfer(p.txCfg, p.blocks, [[b]] + inp, log).r == SL.Result(p.blocks, log)
    ensures Tx.Transfer(p.txCfg, p.blocks, [[b]] + inp, log).out == SL.Emitted(p.txCfg, p.blocks, log)
  {
    hide Tx.Compatible, SL.IsRun, SL.ListenRounds, SL.Result, SL.Emitted, Handshake.Catch;
    Handshake.CatchNext(b, inp);
  }

  /**
   An XMODEM transfer from the start character on, which the sender hears first and the receiver has sent:
   lxmodem_emit and lxmodem_receive end as the two loops behind it do.
   */
  method RunXmodem(tx: Modem, rx: Modem, ghost steps: seq<Step>, ghost txMore: seq<Reading>, ghost rxMore: seq<Reading>)
    returns (sentBytes: int, receivedBytes: int)
    requires Apart(tx, rx) && Ready(tx) && rx.Valid() && Interoperable(tx.Cfg(), rx.Cfg())
    requires tx.protocol.Xmodem? && rx.protocol.Xmodem?
    requires rx.Cfg().LineBufferSet() && rx.Cfg().LongestBody() <= rx.blk.Length
    requires Possible(SettingOf(tx, rx), steps)
    requires var s := After(SettingOf(tx, rx), steps);
             SenderDone(SettingOf(tx, rx), s) && rx.inp == s.rxIn + rxMore &&
             tx.inp == [[Receiver.Preamble(rx.Cfg())]] + (s.txIn + txMore)
    modifies tx`sent, tx`inp, tx`readCount, tx`blkSize, tx.blk, tx.ramfile`readOffset
    modifies rx`inp, rx`sent, rx`readCount, rx.blk, rx.ramfile`writeOffset, rx.ramfile.buffer
    ensures rx.ramfile.Valid()
    ensures sentBytes >= 0 ==>
              var padded := old(SL.Padded(tx.Cfg().SenderBlockSize(), tx.ramfile.Unread()));
              sentBytes == receivedBytes == |padded| && rx.ramfile.Contents() == old(rx.ramfile.Contents()) + padded
    ensures tx.sent == old(tx.sent) + old(Sends(SettingOf(tx, rx), steps))
    ensures var p := old(SettingOf(tx, rx));
            ReceiverDone(p, After(p, steps)) ==>
              (sentBytes == receivedBytes <==> !Orphaned(p, After(p, steps))) &&
              rx.sent == old(rx.sent) + [old(tx.inp)[0]] + RL.Replies(p.room, After(p, steps).rx)
  {
    hide IsTable, Possible, After, SL.Done, SL.Concat, SL.Acks, SL.Emitted, SL.Result, RL.Result, RL.Stored, RL.Replies,
      BlocksOf, Sends, Orphaned, RL.Ended, Tx.Transfer, Tx.IsTransfer, Tx.Compatible;
    ghost var p, s := SettingOf(tx, rx), After(SettingOf(tx, rx), steps);
    ghost var start := Receiver.Preamble(rx.Cfg());
    SettingIsValid(tx, rx);
    StartsTogetherIff(tx.Cfg(), rx.Cfg());
    ghost var txLog, rxLog;
    sentBytes, txLog := Tx.EmitXmodem(tx);
    StartHeard(p, start, s.txIn + txMore, txLog);
    receivedBytes, rxLog := Receiver.Receive(rx);
    Together(p, steps, txMore, rxMore, txLog, rxLog);
  }
}
