/**
 How many damaged copies a transfer survives: the scripts of both sides when every item suffers a
 number of damaged copies, each answered by a NAK that arrives, before one copy gets through.
 */
module Faults {
  import opened Bytes
  import opened Protocol
  import opened Modem
  import opened Link
  import RL = ReceiverLog
  import RR = ReceiverRuns
  import SL = SenderLog
  import SR = SenderRuns

  /** A damaged copy as the receiver reads it. */
  datatype Copy = Copy(reading: seq<Reading>, event: RL.Event)

  /** The damage is noticed: a spoilt block, or a byte that starts nothing. */
  ghost predicate IsDamaged(cfg: Config, accepted: nat, c: Copy) {
    (c.event.Damaged? || c.event.Noise?) && IsRound(cfg, accepted, c.reading, c.event)
  }

  /** The damaged copies of each item. */
  ghost predicate AreFaults(p: Setting, copies: seq<seq<Copy>>) {
    |copies| <= |p.blocks| + 1 &&
    forall i, j :: 0 <= i < |copies| && 0 <= j < |copies[i]| ==> IsDamaged(p.rxCfg, i, copies[i][j])
  }

  // ---------------------------------------------------------------------- the sender

  /** A NAK for every damaged copy, then the ACK. */
  function TxScript(copies: seq<seq<Copy>>): seq<Reading> {
    if copies == [] then []
    else TxScript(copies[..|copies| - 1]) + (Repeat([NAK], |copies[|copies| - 1]|) + [[ACK]])
  }

  function TxLog(copies: seq<seq<Copy>>): SL.Answers {
    if copies == [] then []
    else TxLog(copies[..|copies| - 1]) + (Repeat(SL.Nak, |copies[|copies| - 1]|) + [SL.Ack])
  }

  lemma SingleByteWait(b: byte)
    ensures IsWait([[b]], SL.AnswerOf(b))
  {
    forall rest ensures SL.Listen([[b]] + rest, MAX_RETRY) == SL.Listened(SL.AnswerOf(b), rest) {
      assert ([[b]] + rest)[0] == [b] && ([[b]] + rest)[1..] == rest;
    }
  }

  /** Up to ten NAKs in a row; the tenth ends the transfer. */
  lemma {:induction false} HearNaks(p: Setting, txIn: seq<Reading>, tx: SL.Answers, f: nat)
    requires SenderHeard(p, txIn, tx) && !SL.Done(|p.blocks|, tx) && SL.Misses(tx) + f <= MAX_RETRY
    ensures var l := tx + Repeat(SL.Nak, f);
            SenderHeard(p, txIn + Repeat([NAK], f), l) && SL.Acks(l) == SL.Acks(tx) &&
            SL.Misses(l) == SL.Misses(tx) + f && SL.Done(|p.blocks|, l) == (SL.Misses(tx) + f >= MAX_RETRY)
  {
    hide SenderHeard, SL.Acks, SL.Misses, IsWait;
    if f == 0 {
      NotDone(|p.blocks|, tx);
      assert tx + Repeat(SL.Nak, 0) == tx && txIn + Repeat([NAK], 0) == txIn;
    } else {
      HearNaks(p, txIn, tx, f - 1);
      var l, i := tx + Repeat(SL.Nak, f - 1), txIn + Repeat([NAK], f - 1);
      SingleByteWait(NAK);
      SenderListens(p, i, l, [[NAK]], SL.Nak);
      SL.Extend(|p.blocks|, l, SL.Nak);
      NotDone(|p.blocks|, l);
      assert l + [SL.Nak] == tx + Repeat(SL.Nak, f) && i + [[NAK]] == txIn + Repeat([NAK], f);
    }
  }

  lemma NotDone(n: nat, tx: SL.Answers)
    requires !SL.Done(n, tx)
    ensures SL.Misses(tx) < MAX_RETRY && SL.Acks(tx) <= n
  {
  }

  /** At most nine damaged copies of each item: all of them get through. */
  lemma {:induction false} SenderSurvives(p: Setting, copies: seq<seq<Copy>>)
    requires |copies| <= |p.blocks| + 1 && forall i :: 0 <= i < |copies| ==> |copies[i]| < MAX_RETRY
    ensures SenderHeard(p, TxScript(copies), TxLog(copies))
    ensures SL.Acks(TxLog(copies)) == |copies| && SL.Misses(TxLog(copies)) == 0
    ensures SL.Done(|p.blocks|, TxLog(copies)) == (|copies| == |p.blocks| + 1)
    decreases |copies|
  {
    if copies == [] {
      StartInvariant(p);
    } else {
      var k := |copies| - 1;
      var before, f := copies[..k], |copies[k]|;
      SenderSurvives(p, before);
      ItemGetsThrough(p, TxScript(before), TxLog(before), f);
    }
  }

  lemma ItemGetsThrough(p: Setting, txIn: seq<Reading>, tx: SL.Answers, f: nat)
    requires SenderHeard(p, txIn, tx) && !SL.Done(|p.blocks|, tx) && SL.Misses(tx) == 0 && f < MAX_RETRY
    ensures var l := tx + (Repeat(SL.Nak, f) + [SL.Ack]);
            SenderHeard(p, txIn + (Repeat([NAK], f) + [[ACK]]), l) && SL.Acks(l) == SL.Acks(tx) + 1 &&
            SL.Misses(l) == 0 && SL.Done(|p.blocks|, l) == (SL.Acks(l) > |p.blocks|)
  {
    hide SenderHeard, SL.Acks, SL.Misses, SL.Done, IsWait;
    HearNaks(p, txIn, tx, f);
    var l, i := tx + Repeat(SL.Nak, f), txIn + Repeat([NAK], f);
    SingleByteWait(ACK);
    SenderListens(p, i, l, [[ACK]], SL.Ack);
    SL.Extend(|p.blocks|, l, SL.Ack);
    assert l + [SL.Ack] == tx + (Repeat(SL.Nak, f) + [SL.Ack]);
    assert i + [[ACK]] == txIn + (Repeat([NAK], f) + [[ACK]]);
  }

  // -------------------------------------------------------------------- the receiver

  function Events(copies: seq<Copy>): (log: RL.Log)
    ensures |log| == |copies|
  {
    seq(|copies|, j requires 0 <= j < |copies| => copies[j].event)
  }

  function AllReadings(copies: seq<Copy>): seq<Reading> {
    if copies == [] then [] else AllReadings(copies[..|copies| - 1]) + copies[|copies| - 1].reading
  }

  function Intact(p: Setting, k: nat): RL.Event {
    if k < |p.blocks| then RL.Block(p.blocks[k]) else RL.End
  }

  /** The damaged copies of every item, then the item itself. */
  function RxScript(p: Setting, copies: seq<seq<Copy>>): seq<Reading>
    requires p.Sized()
  {
    if copies == [] then []
    else
      var k := |copies| - 1;
      RxScript(p, copies[..k]) + (AllReadings(copies[k]) + Readings(SL.Item(p.txCfg, p.blocks, k)))
  }

  function RxLog(p: Setting, copies: seq<seq<Copy>>): RL.Log {
    if copies == [] then []
    else
      var k := |copies| - 1;
      RxLog(p, copies[..k]) + (Events(copies[k]) + [Intact(p, k)])
  }

  lemma OneDamage(p: Setting, rxIn: seq<Reading>, rx: RL.Log, c: Copy)
    requires ReceiverHeard(p, rxIn, rx) && !RL.Ended(p.room, rx) && IsDamaged(p.rxCfg, RL.Accepted(rx), c)
    ensures var l := rx + [c.event];
            ReceiverHeard(p, rxIn + c.reading, l) && RL.Accepted(l) == RL.Accepted(rx) &&
            RL.Payload(l) == RL.Payload(rx) && RL.Failures(l) == RL.Failures(rx) + 1 &&
            RL.Ended(p.room, l) == (RL.Failures(l) >= MAX_RETRY) &&
            (RL.Failures(l) < MAX_RETRY ==> RL.Replies(p.room, l) == RL.Replies(p.room, rx) + [[NAK]])
  {
    hide ReceiverHeard, RL.Accepted, RL.Payload, RL.Failures, RL.Cancels, RL.Replies, RL.Overflows, IsRound;
    ReceiverHears(p, rxIn, rx, c.reading, c.event);
    RL.Extend(p.room, rx, c.event);
    assert RL.Last(rx + [c.event]) == c.event;
  }

  /** Up to ten damaged copies in a row; the tenth cancels the transfer. */
  lemma {:induction false} HearDamage(p: Setting, rxIn: seq<Reading>, rx: RL.Log, copies: seq<Copy>)
    requires ReceiverHeard(p, rxIn, rx) && !RL.Ended(p.room, rx) && RL.Failures(rx) + |copies| <= MAX_RETRY
    requires forall j :: 0 <= j < |copies| ==> IsDamaged(p.rxCfg, RL.Accepted(rx), copies[j])
    ensures var l := rx + Events(copies);
            ReceiverHeard(p, rxIn + AllReadings(copies), l) && RL.Accepted(l) == RL.Accepted(rx) &&
            RL.Payload(l) == RL.Payload(rx) && RL.Failures(l) == RL.Failures(rx) + |copies| &&
            RL.Ended(p.room, l) == (RL.Failures(rx) + |copies| >= MAX_RETRY)
    ensures RL.Failures(rx) + |copies| < MAX_RETRY ==>
              RL.Replies(p.room, rx + Events(copies)) == RL.Replies(p.room, rx) + Repeat([NAK], |copies|)
    decreases |copies|
  {
    hide ReceiverHeard, RL.Accepted, RL.Payload, RL.Failures, RL.Replies, RL.Ended, IsDamaged;
    if copies == [] {
      NotEnded(p.room, rx);
      assert rx + Events([]) == rx && rxIn + AllReadings([]) == rxIn;
      assert RL.Replies(p.room, rx) + Repeat([NAK], 0) == RL.Replies(p.room, rx);
    } else {
      var k := |copies| - 1;
      HearDamage(p, rxIn, rx, copies[..k]);
      var l, i := rx + Events(copies[..k]), rxIn + AllReadings(copies[..k]);
      OneDamage(p, i, l, copies[k]);
      assert l + [copies[k].event] == rx + Events(copies);
      assert i + copies[k].reading == rxIn + AllReadings(copies);
      assert Repeat([NAK], k) + [[NAK]] == Repeat([NAK], k + 1);
    }
  }

  lemma NotEnded(room: int, rx: RL.Log)
    requires !RL.Ended(room, rx)
    ensures RL.Failures(rx) < MAX_RETRY && !RL.Overflows(room, rx)
  {
  }

  /** The whole file, padded, is strictly smaller than the receiver's room. */
  ghost predicate Fits(p: Setting) { |SL.Concat(p.blocks)| < p.room }

  lemma {:induction false} ConcatPrefix(blocks: seq<seq<byte>>, k: nat)
    requires k <= |blocks|
    ensures |SL.Concat(blocks[..k])| <= |SL.Concat(blocks)|
    decreases |blocks| - k
  {
    if k == |blocks| {
      assert blocks[..k] == blocks;
    } else {
      ConcatPrefix(blocks, k + 1);
      ConcatAppend(blocks[..k], blocks[k]);
      assert blocks[..k] + [blocks[k]] == blocks[..k + 1];
    }
  }

  /** The intact copy of item k after k items: taken, acknowledged and stored. */
  lemma HearIntact(p: Setting, rxIn: seq<Reading>, rx: RL.Log, k: nat)
    requires p.Valid() && Fits(p) && k <= |p.blocks|
    requires ReceiverHeard(p, rxIn, rx) && !RL.Ended(p.room, rx)
    requires RL.Accepted(rx) == k && RL.Payload(rx) == SL.Concat(p.blocks[..k])
    ensures var l := rx + [Intact(p, k)];
            ReceiverHeard(p, rxIn + Readings(SL.Item(p.txCfg, p.blocks, k)), l) &&
            RL.Failures(l) == 0 && RL.Ended(p.room, l) == (k == |p.blocks|) && !RL.Overflows(p.room, l) &&
            RL.Replies(p.room, l) == RL.Replies(p.room, rx) + [[ACK]]
    ensures k < |p.blocks| ==>
              RL.Accepted(rx + [Intact(p, k)]) == k + 1 &&
              RL.Payload(rx + [Intact(p, k)]) == SL.Concat(p.blocks[..k + 1])
    ensures k == |p.blocks| ==> RL.Payload(rx + [Intact(p, k)]) == SL.Concat(p.blocks)
  {
    hide ReceiverHeard, RL.Accepted, RL.Payload, RL.Failures, RL.Cancels, RL.Replies, RL.Overflows, RL.Ended,
      RL.Stored, RL.Result, IsRound, SL.Item, SL.Concat, Readings;
    ItemIsRound(p, k, k);
    ReceiverHears(p, rxIn, rx, Readings(SL.Item(p.txCfg, p.blocks, k)), Intact(p, k));
    RL.Extend(p.room, rx, Intact(p, k));
    assert RL.Last(rx + [Intact(p, k)]) == Intact(p, k);
    if k < |p.blocks| {
      BlockFits(p, k);
    } else {
      assert p.blocks[..k] == p.blocks;
    }
  }

  lemma BlockFits(p: Setting, k: nat)
    requires Fits(p) && k < |p.blocks|
    ensures SL.Concat(p.blocks[..k + 1]) == SL.Concat(p.blocks[..k]) + p.blocks[k]
    ensures |p.blocks[k]| < p.room - |SL.Concat(p.blocks[..k])|
  {
    ConcatAppend(p.blocks[..k], p.blocks[k]);
    assert p.blocks[..k] + [p.blocks[k]] == p.blocks[..k + 1];
    ConcatPrefix(p.blocks, k + 1);
  }

  /** At most nine damaged copies of each item: the receiver takes them all. */
  lemma {:induction false} ReceiverSurvives(p: Setting, copies: seq<seq<Copy>>)
    requires p.Valid() && Fits(p) && AreFaults(p, copies)
    requires forall i :: 0 <= i < |copies| ==> |copies[i]| < MAX_RETRY
    ensures ReceiverHeard(p, RxScript(p, copies), RxLog(p, copies))
    ensures RL.Failures(RxLog(p, copies)) == 0 && !RL.Overflows(p.room, RxLog(p, copies))
    ensures RL.Ended(p.room, RxLog(p, copies)) == (|copies| == |p.blocks| + 1)
    ensures RL.Replies(p.room, RxLog(p, copies)) == TxScript(copies)
    ensures |copies| <= |p.blocks| ==>
              RL.Accepted(RxLog(p, copies)) == |copies| &&
              RL.Payload(RxLog(p, copies)) == SL.Concat(p.blocks[..|copies|])
    ensures |copies| > |p.blocks| ==> RL.Payload(RxLog(p, copies)) == SL.Concat(p.blocks)
    decreases |copies|
  {
    if copies == [] {
      StartInvariant(p);
      assert p.blocks[..0] == [];
    } else {
      var k := |copies| - 1;
      assert AreFaults(p, copies[..k]);
      ReceiverSurvives(p, copies[..k]);
      ItemIsTaken(p, RxScript(p, copies[..k]), RxLog(p, copies[..k]), copies[k], k);
    }
  }

  lemma ItemIsTaken(p: Setting, rxIn: seq<Reading>, rx: RL.Log, copies: seq<Copy>, k: nat)
    requires p.Valid() && Fits(p) && k <= |p.blocks| && |copies| < MAX_RETRY
    requires ReceiverHeard(p, rxIn, rx) && !RL.Ended(p.room, rx) && RL.Failures(rx) == 0
    requires RL.Accepted(rx) == k && RL.Payload(rx) == SL.Concat(p.blocks[..k])
    requires forall j :: 0 <= j < |copies| ==> IsDamaged(p.rxCfg, k, copies[j])
    ensures var l := rx + (Events(copies) + [Intact(p, k)]);
            ReceiverHeard(p, rxIn + (AllReadings(copies) + Readings(SL.Item(p.txCfg, p.blocks, k))), l) &&
            RL.Failures(l) == 0 && RL.Ended(p.room, l) == (k == |p.blocks|) && !RL.Overflows(p.room, l) &&
            RL.Replies(p.room, l) == RL.Replies(p.room, rx) + (Repeat([NAK], |copies|) + [[ACK]]) &&
            (k < |p.blocks| ==> RL.Accepted(l) == k + 1 && RL.Payload(l) == SL.Concat(p.blocks[..k + 1])) &&
            (k == |p.blocks| ==> RL.Payload(l) == SL.Concat(p.blocks))
  {
    hide ReceiverHeard, RL.Accepted, RL.Payload, RL.Failures, RL.Replies, RL.Overflows, RL.Ended, IsRound, SL.Item,
      SL.Concat, Readings, Intact, Events, IsDamaged;
    HearDamage(p, rxIn, rx, copies);
    var l, i := rx + Events(copies), rxIn + AllReadings(copies);
    HearIntact(p, i, l, k);
    assert l + [Intact(p, k)] == rx + (Events(copies) + [Intact(p, k)]);
    var item := Readings(SL.Item(p.txCfg, p.blocks, k));
    assert i + item == rxIn + (AllReadings(copies) + item);
    var r := RL.Replies(p.room, rx);
    assert (r + Repeat([NAK], |copies|)) + [[ACK]] == r + (Repeat([NAK], |copies|) + [[ACK]]);
  }

  // -------------------------------------------------------------------- the theorem

  predicate FewFaults(copies: seq<seq<Copy>>) { forall i :: 0 <= i < |copies| ==> |copies[i]| < MAX_RETRY }

  /** Nine damaged copies of every item and of the end of transmission are survived. */
  lemma FewFaultsSurvived(p: Setting, copies: seq<seq<Copy>>, txMore: seq<Reading>, rxMore: seq<Reading>,
                          txLog: SL.Answers, rxLog: RL.Log)
    requires p.Valid() && Fits(p) && AreFaults(p, copies) && |copies| == |p.blocks| + 1 && FewFaults(copies)
    requires SenderRan(p, TxScript(copies) + txMore, txLog)
    requires ReceiverRan(p, RxScript(p, copies) + rxMore, rxLog)
    ensures SL.Result(p.blocks, txLog) == RL.Result(p.room, rxLog) == |SL.Concat(p.blocks)|
    ensures RL.Stored(p.room, rxLog) == SL.Concat(p.blocks)
    ensures txLog == TxLog(copies) && rxLog == RxLog(p, copies) && RL.Replies(p.room, rxLog) == TxScript(copies)
  {
    hide SL.Done, RL.Accepted, RL.Failures, RL.Cancels, RL.Replies, SL.Misses, TxLog, TxScript, RxScript, SL.Concat,
      IsRound;
    SenderSurvives(p, copies);
    ReceiverSurvives(p, copies);
    SenderHistoryIsRun(p, TxScript(copies), TxLog(copies), txMore, txLog);
    ReceiverHistoryIsRun(p, RxScript(p, copies), RxLog(p, copies), rxMore, rxLog);
    LastIsIntact(p, copies);
  }

  lemma LastIsIntact(p: Setting, copies: seq<seq<Copy>>)
    requires copies != []
    ensures RxLog(p, copies) != [] && RL.Last(RxLog(p, copies)) == Intact(p, |copies| - 1)
  {
    var k := |copies| - 1;
    var l := RxLog(p, copies[..k]) + Events(copies[k]);
    assert RxLog(p, copies) == l + [Intact(p, k)];
  }

  lemma SenderHistoryIsRun(p: Setting, txIn: seq<Reading>, tx: SL.Answers, more: seq<Reading>, log: SL.Answers)
    requires SenderHeard(p, txIn, tx) && SL.Done(|p.blocks|, tx) && SenderRan(p, txIn + more, log)
    ensures log == tx
  {
    hide SL.Done;
    assert SL.ListenRounds(txIn + more, |tx|) == SL.Waits(tx, more);
    SR.RunIsUnique(txIn + more, |p.blocks|, log, tx);
  }

  lemma ReceiverHistoryIsRun(p: Setting, rxIn: seq<Reading>, rx: RL.Log, more: seq<Reading>, log: RL.Log)
    requires ReceiverHeard(p, rxIn, rx) && RL.Ended(p.room, rx) && ReceiverRan(p, rxIn + more, log)
    ensures log == rx
  {
    hide RL.Ended;
    assert RL.HearRounds(p.rxCfg, rxIn + more, |rx|) == RL.Rounds(rx, more);
    RR.RunIsUnique(p.rxCfg, rxIn + more, p.room, log, rx);
  }

  /** The first item with ten damaged copies or more, and how the scripts go on from there. */
  lemma {:induction false} FirstTen(p: Setting, copies: seq<seq<Copy>>)
    returns (j: nat, txRest: seq<Reading>, rxRest: seq<Reading>)
    requires p.Sized() && !FewFaults(copies)
    ensures j < |copies| && |copies[j]| >= MAX_RETRY && FewFaults(copies[..j])
    ensures TxScript(copies) == TxScript(copies[..j]) + (Repeat([NAK], MAX_RETRY) + txRest)
    ensures RxScript(p, copies) == RxScript(p, copies[..j]) + (AllReadings(copies[j][..MAX_RETRY]) + rxRest)
    decreases |copies|
  {
    hide SL.Item, Readings, AllReadings;
    var k := |copies| - 1;
    var before, item := copies[..k], Readings(SL.Item(p.txCfg, p.blocks, |copies| - 1));
    if FewFaults(before) {
      j := k;
      var more := |copies[k]| - MAX_RETRY;
      txRest := Repeat([NAK], more) + [[ACK]];
      assert Repeat([NAK], |copies[k]|) == Repeat([NAK], MAX_RETRY) + Repeat([NAK], more);
      ReadingsSplit(copies[k], MAX_RETRY);
      rxRest := AllReadings(copies[k][MAX_RETRY..]) + item;
    } else {
      var tx, rx;
      j, tx, rx := FirstTen(p, before);
      assert before[..j] == copies[..j];
      txRest := tx + (Repeat([NAK], |copies[k]|) + [[ACK]]);
      rxRest := rx + (AllReadings(copies[k]) + item);
      Regroup(TxScript(copies[..j]), Repeat([NAK], MAX_RETRY), tx, Repeat([NAK], |copies[k]|) + [[ACK]]);
      Regroup(RxScript(p, copies[..j]), AllReadings(copies[j][..MAX_RETRY]), rx, AllReadings(copies[k]) + item);
    }
  }

  lemma {:induction false} ReadingsSplit(copies: seq<Copy>, i: nat)
    requires i <= |copies|
    ensures AllReadings(copies) == AllReadings(copies[..i]) + AllReadings(copies[i..])
    decreases |copies| - i
  {
    if i == |copies| {
      assert copies[..i] == copies && copies[i..] == [];
    } else {
      var k := |copies| - 1;
      ReadingsSplit(copies[..k], i);
      assert copies[..k][..i] == copies[..i] && copies[..k][i..] == copies[i..][..k - i];
    }
  }

  /** Ten damaged copies of one item end the transfer on both sides. */
  lemma ManyFaultsAbort(p: Setting, copies: seq<seq<Copy>>, txMore: seq<Reading>, rxMore: seq<Reading>,
                        txLog: SL.Answers, rxLog: RL.Log)
    requires p.Valid() && Fits(p) && AreFaults(p, copies) && |copies| == |p.blocks| + 1 && !FewFaults(copies)
    requires SenderRan(p, TxScript(copies) + txMore, txLog)
    requires ReceiverRan(p, RxScript(p, copies) + rxMore, rxLog)
    ensures SL.Result(p.blocks, txLog) == RL.Result(p.room, rxLog) == -1
  {
    hide TxScript, RxScript, AllReadings, SenderRan, ReceiverRan, AreFaults, Fits, FewFaults, SL.Result, RL.Result;
    var j, txRest, rxRest := FirstTen(p, copies);
    Regroup(TxScript(copies[..j]), Repeat([NAK], MAX_RETRY), txRest, txMore);
    Regroup(RxScript(p, copies[..j]), AllReadings(copies[j][..MAX_RETRY]), rxRest, rxMore);
    SenderAborts(p, copies, j, txRest + txMore, txLog);
    ReceiverAborts(p, copies, j, rxRest + rxMore, rxLog);
  }

  lemma Regroup(a: seq<Reading>, b: seq<Reading>, c: seq<Reading>, d: seq<Reading>)
    ensures (a + (b + c)) + d == a + (b + (c + d))
  {
  }

  lemma SenderAborts(p: Setting, copies: seq<seq<Copy>>, j: nat, more: seq<Reading>, log: SL.Answers)
    requires j < |copies| == |p.blocks| + 1 && FewFaults(copies[..j])
    requires SenderRan(p, TxScript(copies[..j]) + (Repeat([NAK], MAX_RETRY) + more), log)
    ensures SL.Result(p.blocks, log) == -1
  {
    hide SL.Misses, SenderHeard, SenderRan, TxScript, TxLog, SL.Done, SL.Acks;
    var before := copies[..j];
    SenderSurvives(p, before);
    var i, l := TxScript(before) + Repeat([NAK], MAX_RETRY), TxLog(before) + Repeat(SL.Nak, MAX_RETRY);
    HearNaks(p, TxScript(before), TxLog(before), MAX_RETRY);
    assert TxScript(before) + (Repeat([NAK], MAX_RETRY) + more) == i + more;
    SenderHistoryIsRun(p, i, l, more, log);
  }

  lemma ReceiverAborts(p: Setting, copies: seq<seq<Copy>>, j: nat, more: seq<Reading>, log: RL.Log)
    requires p.Valid() && Fits(p) && AreFaults(p, copies)
    requires j < |copies| == |p.blocks| + 1 && FewFaults(copies[..j]) && |copies[j]| >= MAX_RETRY
    requires ReceiverRan(p, RxScript(p, copies[..j]) + (AllReadings(copies[j][..MAX_RETRY]) + more), log)
    ensures RL.Result(p.room, log) == -1
  {
    hide ReceiverHeard, ReceiverRan, RxScript, RxLog, RL.Ended, RL.Accepted, RL.Failures, RL.Payload, AllReadings,
      IsDamaged;
    var before, ten := copies[..j], copies[j][..MAX_RETRY];
    ReceiverSurvives(p, before);
    var i, l := RxScript(p, before) + AllReadings(ten), RxLog(p, before) + Events(ten);
    HearDamage(p, RxScript(p, before), RxLog(p, before), ten);
    assert RxScript(p, before) + (AllReadings(ten) + more) == i + more;
    ReceiverHistoryIsRun(p, i, l, more, log);
    assert RL.Last(l) == copies[j][MAX_RETRY - 1].event;
    DamageIsNoEnd(p.rxCfg, j, copies[j][MAX_RETRY - 1]);
  }

  lemma DamageIsNoEnd(cfg: Config, accepted: nat, c: Copy)
    requires IsDamaged(cfg, accepted, c)
    ensures !c.event.End?
  {
  }

  /**
   Exact fault tolerance: both sides finish with the padded length if every block and the end of
   transmission suffer at most nine damaged copies, and both return -1 otherwise.
   */
  lemma ExactTolerance(p: Setting, copies: seq<seq<Copy>>, txMore: seq<Reading>, rxMore: seq<Reading>,
                       txLog: SL.Answers, rxLog: RL.Log)
    requires p.Valid() && Fits(p) && AreFaults(p, copies) && |copies| == |p.blocks| + 1
    requires SenderRan(p, TxScript(copies) + txMore, txLog)
    requires ReceiverRan(p, RxScript(p, copies) + rxMore, rxLog)
    ensures SL.Result(p.blocks, txLog) == RL.Result(p.room, rxLog) ==
            if FewFaults(copies) then |SL.Concat(p.blocks)| else -1
  {
    if FewFaults(copies) {
      FewFaultsSurvived(p, copies, txMore, rxMore, txLog, rxLog);
    } else {
      ManyFaultsAbort(p, copies, txMore, rxMore, txLog, rxLog);
    }
  }
}
