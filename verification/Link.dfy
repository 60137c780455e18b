/**
 Sender and receiver over a lossy half-duplex line, as a state machine over the two histories.

 The line: an item arrives intact, or what arrives is damaged in a way the checks notice, or nothing
 arrives; the data of a block the receiver already has may be damaged in any way, because its check is
 not looked at, but no damage turns a block number into another one with its complement; replies may
 get lost or turn into anything but an ACK; no end of transmission is forged.
 ACKs carry no number.  On a strict line an ACK is heard only in the wait that follows the item it
 answers.  On a loose line ACKs may be late or forged, as long as sender and receiver are less than
 so many blocks apart; up to 256, the numbers still tell the blocks apart.
 */
module Link {
  import opened Bytes
  import opened Detection
  import opened Protocol
  import opened Modem
  import RL = ReceiverLog
  import opened RR = ReceiverRuns
  import SL = SenderLog
  import SR = SenderRuns

  /**
   A transfer: the modes of the two sides, the blocks to send, the receiver's room, the kind of line,
   and how far apart a loose line lets the two sides get.
   */
  datatype Setting = Setting(
    txCfg: Config, rxCfg: Config, blocks: seq<seq<byte>>, room: int, strict: bool, window: nat)
  {
    ghost predicate Valid() {
      Sized() && Interoperable(txCfg, rxCfg) &&
      forall i :: 0 <= i < |blocks| && |blocks[i]| == 1024 ==> txCfg.SenderBlockSize() == 1024
    }

    /** Block numbers of eight bits tell fewer than 256 blocks apart. */
    predicate Tells() { strict || window <= 256 }

    ghost predicate Sized() { forall i :: 0 <= i < |blocks| ==> IsBlockSize(|blocks[i]|) }
  }

  /** The two histories, what they were heard from, and whether an ACK is on its way. */
  datatype State = State(
    tx: SL.Answers, txIn: seq<Reading>, rx: RL.Log, rxIn: seq<Reading>, waiting: bool, acked: bool)

  const START := State([], [], [], [], false, false)

  datatype Step =
    | Deliver                                         // the sender emits, the item arrives
    | Garble(reading: seq<Reading>)                   // the sender repeats a block, its data arrives damaged
    | Lose                                            // the sender emits, nothing arrives
    | Disturb(reading: seq<Reading>, event: RL.Event) // the receiver hears something unusable, or nothing
    | Answer(reading: seq<Reading>, answer: SL.Answer) // the sender's wait ends

  /** The readings that make one round of the receiver, whatever comes next. */
  ghost predicate IsRound(cfg: Config, accepted: nat, reading: seq<Reading>, event: RL.Event) {
    forall rest :: RL.Hear(cfg, accepted, reading + rest) == RL.Heard(event, rest)
  }

  /** The readings that make one wait of the sender, whatever comes next. */
  ghost predicate IsWait(reading: seq<Reading>, answer: SL.Answer) {
    forall rest :: SL.Listen(reading + rest, MAX_RETRY) == SL.Listened(answer, rest)
  }

  /** An item as the receiver reads it: the start byte, then the rest of a frame. */
  function Readings(item: seq<byte>): seq<Reading>
    requires item != []
  {
    if |item| == 1 then [item] else [item[..1], item[1..]]
  }

  function CurrentItem(p: Setting, s: State): seq<byte>
    requires p.Sized()
  {
    SL.Item(p.txCfg, p.blocks, SL.Acks(s.tx))
  }

  /** On a loose line: fewer blocks apart than the line allows. */
  predicate Near(p: Setting, s: State) {
    p.strict || RL.Accepted(s.rx) - p.window < SL.Acks(s.tx) < RL.Accepted(s.rx) + p.window
  }

  predicate Unusable(e: RL.Event) { e.Silence? || e.Noise? || e.Cancel? || e.Damaged? }

  predicate Acknowledged(e: RL.Event) { e.Block? || e.Duplicate? || e.End? }

  predicate SenderDone(p: Setting, s: State) { SL.Done(|p.blocks|, s.tx) }

  predicate ReceiverDone(p: Setting, s: State) { RL.Ended(p.room, s.rx) }

  ghost predicate Enabled(p: Setting, s: State, step: Step)
  {
    match step
    case Deliver =>
      !s.waiting && !SenderDone(p, s) && (Near(p, s))
    case Garble(reading) =>
      !s.waiting && !SenderDone(p, s) && !ReceiverDone(p, s) &&
      (Near(p, s)) &&
      Received(p.blocks, SL.Acks(s.tx), RL.Accepted(s.rx)).Duplicate? &&
      IsRound(p.rxCfg, RL.Accepted(s.rx), reading, RL.Duplicate)
    case Lose => !s.waiting && !SenderDone(p, s)
    case Disturb(reading, event) =>
      !ReceiverDone(p, s) && Unusable(event) && IsRound(p.rxCfg, RL.Accepted(s.rx), reading, event)
    case Answer(reading, answer) =>
      s.waiting && IsWait(reading, answer) && (p.strict && answer.Ack? ==> s.acked)
  }

  function Next(p: Setting, s: State, step: Step): State
    requires p.Sized()
  {
    match step
    case Deliver =>
      if ReceiverDone(p, s) then s.(waiting := true)
      else
        var reading := Readings(CurrentItem(p, s));
        var event := RL.Hear(p.rxCfg, RL.Accepted(s.rx), reading).event;
        s.(rx := s.rx + [event], rxIn := s.rxIn + reading, waiting := true, acked := Acknowledged(event))
    case Garble(reading) =>
      s.(rx := s.rx + [RL.Duplicate], rxIn := s.rxIn + reading, waiting := true, acked := true)
    case Lose => s.(waiting := true)
    case Disturb(reading, event) => s.(rx := s.rx + [event], rxIn := s.rxIn + reading)
    case Answer(reading, answer) =>
      s.(tx := s.tx + [answer], txIn := s.txIn + reading, waiting := false, acked := false)
  }

  /** The state after a sequence of steps. */
  function After(p: Setting, steps: seq<Step>): State
    requires p.Sized()
  {
    if steps == [] then START else Next(p, After(p, steps[..|steps| - 1]), steps[|steps| - 1])
  }

  /** Every step was possible when it was taken. */
  ghost predicate Possible(p: Setting, steps: seq<Step>)
    requires p.Sized()
  {
    steps == [] ||
    (Possible(p, steps[..|steps| - 1]) && Enabled(p, After(p, steps[..|steps| - 1]), steps[|steps| - 1]))
  }

  // ----------------------------------------------------------- an intact item, received

  /**
   What the receiver makes of the k-th item after accepting r blocks: block numbers are compared
   modulo 256, so it is the next block, the previous one, or neither.
   */
  function Received(blocks: seq<seq<byte>>, k: nat, r: nat): RL.Event {
    if k >= |blocks| then RL.End
    else if k % 256 == r % 256 then RL.Block(blocks[k])
    else if (k + 1) % 256 == r % 256 then RL.Duplicate
    else RL.Damaged
  }

  /** Frame round trip: the receiver's check of a built frame, for all modes that go together. */
  lemma FrameRoundTrip(tx: Config, rx: Config, no: byte, data: seq<byte>, accepted: nat, rest: seq<Reading>)
    requires Interoperable(tx, rx) && IsBlockSize(|data|) && (|data| == 1024 ==> tx.SenderBlockSize() == 1024)
    ensures var frame := Frame(tx.SenderUsesCrc(), no, data);
            RL.Hear(rx, accepted, Readings(frame) + rest) ==
            RL.Heard(if no == BlockNo(accepted + 1) then RL.Block(data)
                     else if no == BlockNo(accepted) then RL.Duplicate else RL.Damaged, rest)
  {
    hide CrcBytes, Sum, CheckBytes;
    var crc := tx.SenderUsesCrc();
    var frame, body := Frame(crc, no, data), Body(crc, no, data);
    SidesAgree(tx, rx, |data|);
    DataOfBody(crc, no, data);
    assert frame[1..] == body && frame[..1] == [frame[0]];
    var inp := Readings(frame) + rest;
    assert inp[0] == frame[..1] && inp[1..] == [body] + rest && inp[1..][0] == body && inp[1..][1..] == rest;
    assert body[0] == no && body[1] == Complement(no);
    assert Body(crc, BlockNo(accepted + 1), data)[0] == BlockNo(accepted + 1);
  }

  /** Modes that do not go together: every frame of a size they disagree on is refused. */
  lemma ForeignFrame(tx: Config, rx: Config, no: byte, data: seq<byte>, accepted: nat, rest: seq<Reading>)
    requires IsBlockSize(|data|)
    requires rx.ReceiverUsesCrc(|data|) != tx.SenderUsesCrc() || (|data| == 1024 && !rx.TakesLongBlocks())
    ensures RL.Hear(rx, accepted, Readings(Frame(tx.SenderUsesCrc(), no, data)) + rest).event == RL.Damaged
  {
    hide CheckBytes;
    var crc := tx.SenderUsesCrc();
    var frame, body := Frame(crc, no, data), Body(crc, no, data);
    assert frame[1..] == body && frame[..1] == [frame[0]];
    var inp := Readings(frame) + rest;
    assert inp[0] == frame[..1] && inp[1..] == [body] + rest && inp[1..][0] == body;
  }

  lemma ItemIsRound(p: Setting, k: nat, r: nat)
    requires p.Valid()
    ensures IsRound(p.rxCfg, r, Readings(SL.Item(p.txCfg, p.blocks, k)), Received(p.blocks, k, r))
    ensures RL.Hear(p.rxCfg, r, Readings(SL.Item(p.txCfg, p.blocks, k))).event == Received(p.blocks, k, r)
  {
    var reading, event := Readings(SL.Item(p.txCfg, p.blocks, k)), Received(p.blocks, k, r);
    forall rest ensures RL.Hear(p.rxCfg, r, reading + rest) == RL.Heard(event, rest) {
      if k < |p.blocks| {
        FrameRoundTrip(p.txCfg, p.rxCfg, BlockNo(k + 1), p.blocks[k], r, rest);
        NumbersModulo(k, r);
      } else {
        assert reading == [[EOT]] && (reading + rest)[0] == [EOT] && (reading + rest)[1..] == rest;
      }
    }
    assert reading + [] == reading;
  }

  lemma NumbersModulo(k: nat, r: nat)
    ensures BlockNo(k + 1) == BlockNo(r + 1) <==> k % 256 == r % 256
    ensures BlockNo(k + 1) == BlockNo(r) <==> (k + 1) % 256 == r % 256
  {
  }

  // ------------------------------------------------------------------ the invariant

  function HasEnded(log: RL.Log): bool { log != [] && RL.Last(log).End? }

  /** The items the receiver has taken: its blocks, and the end of transmission. */
  function Taken(log: RL.Log): nat { RL.Accepted(log) + if HasEnded(log) then 1 else 0 }

  /** The receiver's history is what these readings make it hear, and was live all along. */
  ghost predicate ReceiverHeard(p: Setting, rxIn: seq<Reading>, rx: RL.Log) {
    (forall k: nat :: k < |rx| ==> !RL.Ended(p.room, rx[..k])) &&
    forall rest :: RL.HearRounds(p.rxCfg, rxIn + rest, |rx|) == RL.Rounds(rx, rest)
  }

  /** The sender's history is what these readings make it hear, and was live all along. */
  ghost predicate SenderHeard(p: Setting, txIn: seq<Reading>, tx: SL.Answers) {
    (forall k: nat :: k < |tx| ==> !SL.Done(|p.blocks|, tx[..k])) &&
    forall rest :: SL.ListenRounds(txIn + rest, |tx|) == SL.Waits(tx, rest)
  }

  /** On any line: both histories are live runs of their inputs, and the payload is a prefix. */
  ghost predicate Sound(p: Setting, s: State) {
    ReceiverHeard(p, s.rxIn, s.rx) && SenderHeard(p, s.txIn, s.tx) && (s.waiting ==> !SenderDone(p, s)) &&
    TakenInOrder(p, s.rx) && (s.rx != [] ==> TakenInOrder(p, RL.Front(s.rx)))
  }

  /** The accepted blocks are the first ones, in order. */
  ghost predicate TakenInOrder(p: Setting, rx: RL.Log) {
    RL.Accepted(rx) <= |p.blocks| && RL.Payload(rx) == SL.Concat(p.blocks[..RL.Accepted(rx)])
  }

  /** On a strict line: the receiver is level with the sender or one item ahead. */
  ghost predicate InStep(p: Setting, s: State) {
    var a, t := SL.Acks(s.tx), Taken(s.rx);
    a <= t <= a + 1 && (s.acked ==> t == a + 1 && s.waiting) && (HasEnded(s.rx) ==> RL.Accepted(s.rx) == |p.blocks|)
  }

  lemma {:induction false} ConcatAppend(blocks: seq<seq<byte>>, data: seq<byte>)
    ensures SL.Concat(blocks + [data]) == SL.Concat(blocks) + data
    decreases |blocks|
  {
    if blocks == [] {
      assert blocks + [data] == [data] && [data][1..] == [];
    } else {
      assert (blocks + [data])[1..] == blocks[1..] + [data];
      ConcatAppend(blocks[1..], data);
    }
  }

  lemma ReceiverHears(p: Setting, rxIn: seq<Reading>, rx: RL.Log, reading: seq<Reading>, event: RL.Event)
    requires ReceiverHeard(p, rxIn, rx) && !RL.Ended(p.room, rx) && IsRound(p.rxCfg, RL.Accepted(rx), reading, event)
    ensures ReceiverHeard(p, rxIn + reading, rx + [event])
  {
    hide RL.Ended, RL.Accepted, RL.Payload, RL.Failures, RL.Cancels, RL.Overflows, RL.Stored, RL.Result, RL.Replies,
      RL.Hear, RL.HearRounds;
    RL.Extend(p.room, rx, event);
    forall rest
      ensures RL.HearRounds(p.rxCfg, (rxIn + reading) + rest, |rx + [event]|) == RL.Rounds(rx + [event], rest)
    {
      assert (rxIn + reading) + rest == rxIn + (reading + rest);
      RL.HearOneMore(p.rxCfg, rxIn + (reading + rest), rx, reading + rest);
    }
  }

  lemma SenderListens(p: Setting, txIn: seq<Reading>, tx: SL.Answers, reading: seq<Reading>, answer: SL.Answer)
    requires SenderHeard(p, txIn, tx) && !SL.Done(|p.blocks|, tx) && IsWait(reading, answer)
    ensures SenderHeard(p, txIn + reading, tx + [answer])
  {
    hide SL.Done, SL.Acks, SL.Misses, SL.Listen;
    SL.Extend(|p.blocks|, tx, answer);
    forall rest
      ensures SL.ListenRounds((txIn + reading) + rest, |tx + [answer]|) == SL.Waits(tx + [answer], rest)
    {
      assert (txIn + reading) + rest == txIn + (reading + rest);
      ListenOneMore(txIn + (reading + rest), tx, reading + rest);
    }
  }

  lemma ListenOneMore(inp: seq<Reading>, log: SL.Answers, rest: seq<Reading>)
    requires SL.ListenRounds(inp, |log|) == SL.Waits(log, rest)
    ensures var l := SL.Listen(rest, MAX_RETRY);
            SL.ListenRounds(inp, |log| + 1) == SL.Waits(log + [l.answer], l.rest)
  {
  }

  /** What an intact item does to the payload while the two sides are less than 256 blocks apart. */
  lemma DeliveredPayload(p: Setting, rx: RL.Log, k: nat)
    requires TakenInOrder(p, rx) && (k < |p.blocks| ==> k - 256 < RL.Accepted(rx) < k + 256)
    ensures TakenInOrder(p, rx + [Received(p.blocks, k, RL.Accepted(rx))])
  {
    hide SL.Concat, RL.Accepted, RL.Payload;
    var r := RL.Accepted(rx);
    RL.Extend(p.room, rx, Received(p.blocks, k, r));
    if k < |p.blocks| && k % 256 == r % 256 {
      assert k == r;
      ConcatAppend(p.blocks[..r], p.blocks[r]);
      assert p.blocks[..r] + [p.blocks[r]] == p.blocks[..r + 1];
    }
  }

  lemma UnusablePayload(p: Setting, rx: RL.Log, e: RL.Event)
    requires Unusable(e)
    ensures RL.Accepted(rx + [e]) == RL.Accepted(rx) && (TakenInOrder(p, rx) ==> TakenInOrder(p, rx + [e]))
    ensures !HasEnded(rx + [e])
  {
    RL.Extend(p.room, rx, e);
  }

  /** On a live strict line the two sides are in step, so an intact item is the next one or a repeat. */
  lemma DeliveredInStep(p: Setting, s: State)
    requires p.Valid() && Sound(p, s) && InStep(p, s) && !s.waiting && !SenderDone(p, s) && !ReceiverDone(p, s)
    ensures RL.Accepted(s.rx) - 256 < SL.Acks(s.tx) < RL.Accepted(s.rx) + 256
    ensures var l := s.rx + [Received(p.blocks, SL.Acks(s.tx), RL.Accepted(s.rx))];
            Acknowledged(RL.Last(l)) && Taken(l) == SL.Acks(s.tx) + 1 &&
            (HasEnded(l) ==> RL.Accepted(l) == |p.blocks|)
  {
    hide SL.Concat, RL.Payload;
    RL.Extend(p.room, s.rx, Received(p.blocks, SL.Acks(s.tx), RL.Accepted(s.rx)));
    assert SL.Acks(s.tx) <= |p.blocks|;
    assert !HasEnded(s.rx);
  }

  ghost predicate Invariant(p: Setting, s: State) { Sound(p, s) && (p.strict ==> InStep(p, s)) }

  /** The state after the receiver made this of the current item, however it was read. */
  function Arrived(s: State, reading: seq<Reading>, event: RL.Event): State {
    s.(rx := s.rx + [event], rxIn := s.rxIn + reading, waiting := true, acked := Acknowledged(event))
  }

  /** What the receiver makes of the current item keeps the invariant. */
  lemma ArrivalKeeps(p: Setting, s: State, reading: seq<Reading>, event: RL.Event)
    requires p.Valid() && p.Tells() && Invariant(p, s) && !s.waiting && !SenderDone(p, s) && !ReceiverDone(p, s)
    requires Near(p, s) && event == Received(p.blocks, SL.Acks(s.tx), RL.Accepted(s.rx))
    requires IsRound(p.rxCfg, RL.Accepted(s.rx), reading, event)
    ensures Invariant(p, Arrived(s, reading, event))
  {
    hide RL.Ended, SL.Done, Received, IsRound, Sound, InStep, Acknowledged;
    ArrivalIsNear(p, s);
    ArrivalIsSound(p, s, reading, event);
    if p.strict { ArrivalInStep(p, s, reading, event); }
  }

  lemma ArrivalIsNear(p: Setting, s: State)
    requires p.Valid() && p.Tells() && Invariant(p, s) && !s.waiting && !SenderDone(p, s) && !ReceiverDone(p, s)
    requires Near(p, s)
    ensures RL.Accepted(s.rx) - 256 < SL.Acks(s.tx) < RL.Accepted(s.rx) + 256
  {
    hide SL.Acks, RL.Accepted, Sound, InStep, SL.Done, RL.Ended;
    if p.strict { DeliveredInStep(p, s); }
  }

  lemma ArrivalIsSound(p: Setting, s: State, reading: seq<Reading>, event: RL.Event)
    requires p.Valid() && Sound(p, s) && !SenderDone(p, s) && !ReceiverDone(p, s)
    requires RL.Accepted(s.rx) - 256 < SL.Acks(s.tx) < RL.Accepted(s.rx) + 256
    requires event == Received(p.blocks, SL.Acks(s.tx), RL.Accepted(s.rx))
    requires IsRound(p.rxCfg, RL.Accepted(s.rx), reading, event)
    ensures Sound(p, Arrived(s, reading, event))
  {
    hide ReceiverHeard, SenderHeard, TakenInOrder, RL.Ended, RL.Accepted, SL.Done, SL.Acks, Received, IsRound,
      Acknowledged;
    ReceiverHears(p, s.rxIn, s.rx, reading, event);
    DeliveredPayload(p, s.rx, SL.Acks(s.tx));
    assert RL.Front(s.rx + [event]) == s.rx;
  }

  lemma ArrivalInStep(p: Setting, s: State, reading: seq<Reading>, event: RL.Event)
    requires p.Valid() && Sound(p, s) && InStep(p, s) && !s.waiting && !SenderDone(p, s) && !ReceiverDone(p, s)
    requires event == Received(p.blocks, SL.Acks(s.tx), RL.Accepted(s.rx))
    ensures InStep(p, Arrived(s, reading, event))
  {
    hide Sound, RL.Accepted, SL.Done, SL.Acks, RL.Ended, Received, Taken;
    DeliveredInStep(p, s);
    assert RL.Last(s.rx + [event]) == event;
  }

  lemma DeliverKeeps(p: Setting, s: State)
    requires p.Valid() && p.Tells() && Invariant(p, s) && Enabled(p, s, Deliver)
    ensures Invariant(p, Next(p, s, Deliver))
  {
    hide ReceiverHeard, SenderHeard, TakenInOrder, RL.Hear, RL.Ended, RL.Accepted, SL.Item, SL.Done, SL.Acks,
      Received, IsRound, Readings, Taken;
    if !ReceiverDone(p, s) {
      ItemIsRound(p, SL.Acks(s.tx), RL.Accepted(s.rx));
      ArrivalKeeps(p, s, Readings(CurrentItem(p, s)), Received(p.blocks, SL.Acks(s.tx), RL.Accepted(s.rx)));
    }
  }

  lemma GarbleKeeps(p: Setting, s: State, reading: seq<Reading>)
    requires p.Valid() && p.Tells() && Invariant(p, s) && Enabled(p, s, Garble(reading))
    ensures Invariant(p, Next(p, s, Garble(reading)))
  {
    hide Invariant, RL.Hear, RL.Ended, RL.Accepted, SL.Done, SL.Acks, Received, IsRound;
    ArrivalKeeps(p, s, reading, RL.Duplicate);
  }

  lemma DisturbKeeps(p: Setting, s: State, reading: seq<Reading>, event: RL.Event)
    requires p.Valid() && p.Tells() && Invariant(p, s) && Enabled(p, s, Disturb(reading, event))
    ensures Invariant(p, Next(p, s, Disturb(reading, event)))
  {
    hide ReceiverHeard, SenderHeard, TakenInOrder, RL.Hear, RL.Accepted, SL.Done, SL.Acks, IsRound;
    ReceiverHears(p, s.rxIn, s.rx, reading, event);
    UnusablePayload(p, s.rx, event);
    assert RL.Front(s.rx + [event]) == s.rx;
  }

  lemma AnswerKeeps(p: Setting, s: State, reading: seq<Reading>, answer: SL.Answer)
    requires p.Valid() && p.Tells() && Invariant(p, s) && Enabled(p, s, Answer(reading, answer))
    ensures Invariant(p, Next(p, s, Answer(reading, answer)))
  {
    hide ReceiverHeard, SenderHeard, TakenInOrder, RL.Ended, RL.Accepted, SL.Done, SL.Acks, IsWait, Taken;
    SenderListens(p, s.txIn, s.tx, reading, answer);
    SL.Extend(|p.blocks|, s.tx, answer);
  }

  lemma LoseKeeps(p: Setting, s: State)
    requires p.Valid() && p.Tells() && Invariant(p, s) && Enabled(p, s, Lose)
    ensures Invariant(p, Next(p, s, Lose))
  {
  }

  lemma StartInvariant(p: Setting)
    ensures Invariant(p, START)
  {
    forall rest: seq<Reading>
      ensures RL.HearRounds(p.rxCfg, [] + rest, 0) == RL.Rounds([], rest)
      ensures SL.ListenRounds([] + rest, 0) == SL.Waits([], rest)
    {
      assert [] + rest == rest;
    }
  }

  /** Whatever the line does, sender and receiver keep the invariant. */
  lemma {:induction false} InvariantHolds(p: Setting, steps: seq<Step>)
    requires p.Valid() && p.Tells() && Possible(p, steps)
    ensures Invariant(p, After(p, steps))
    decreases |steps|
  {
    if steps == [] {
      StartInvariant(p);
    } else {
      var before, step := steps[..|steps| - 1], steps[|steps| - 1];
      InvariantHolds(p, before);
      var s := After(p, before);
      hide Invariant, Enabled, Next;
      match step
      case Deliver => DeliverKeeps(p, s);
      case Garble(reading) => GarbleKeeps(p, s, reading);
      case Lose => LoseKeeps(p, s);
      case Disturb(reading, event) => DisturbKeeps(p, s, reading, event);
      case Answer(reading, answer) => AnswerKeeps(p, s, reading, answer);
    }
  }

  // -------------------------------------------------------------------- the theorems

  /** The file is exactly the first blocks of what is sent, as many as were stored. */
  ghost predicate StoredInOrder(p: Setting, s: State) {
    var stored := StoredBlocks(p.room, s.rx);
    stored <= |p.blocks| && RL.Stored(p.room, s.rx) == SL.Concat(p.blocks[..stored])
  }

  /** The end of transmission is processed only with the whole file stored. */
  ghost predicate CompleteAtEnd(p: Setting, s: State) {
    HasEnded(s.rx) ==>
      RL.Stored(p.room, s.rx) == SL.Concat(p.blocks) && RL.Result(p.room, s.rx) == |SL.Concat(p.blocks)|
  }

  /** The file is a prefix of what was sent, block by block, even on a loose line. */
  lemma {:induction false} PrefixSafety(p: Setting, steps: seq<Step>)
    requires p.Valid() && p.Tells() && Possible(p, steps)
    ensures StoredInOrder(p, After(p, steps))
  {
    InvariantHolds(p, steps);
    var s := After(p, steps);
    hide RL.HearRounds, SL.ListenRounds, SL.Concat, SL.Done, Next, Possible, After;
  }

  /**
   End-to-end safety on a strict line: the receiver has taken as many items as were acknowledged, or
   one more, and it processes the end of transmission only with the whole file stored.
   */
  lemma {:induction false} InStepSafety(p: Setting, steps: seq<Step>)
    requires p.Valid() && p.strict && Possible(p, steps)
    ensures var s := After(p, steps); SL.Acks(s.tx) <= Taken(s.rx) <= SL.Acks(s.tx) + 1
    ensures CompleteAtEnd(p, After(p, steps))
  {
    InvariantHolds(p, steps);
    assert p.blocks[..|p.blocks|] == p.blocks;
  }

  /** What a method's contract says of a run of the sender. */
  ghost predicate SenderRan(p: Setting, inp: seq<Reading>, log: SL.Answers) {
    SL.IsRun(|p.blocks|, log) && log == SL.ListenRounds(inp, |log|).log
  }

  /** What a method's contract says of a run of the receiver. */
  ghost predicate ReceiverRan(p: Setting, inp: seq<Reading>, log: RL.Log) {
    RL.IsRun(p.room, log) && log == RL.HearRounds(p.rxCfg, inp, |log|).log
  }

  lemma SenderRunIsHistory(p: Setting, s: State, more: seq<Reading>, log: SL.Answers)
    requires Sound(p, s) && SenderDone(p, s) && SenderRan(p, s.txIn + more, log)
    ensures log == s.tx
  {
    hide SL.Done;
    assert SL.ListenRounds(s.txIn + more, |s.tx|) == SL.Waits(s.tx, more);
    SR.RunIsUnique(s.txIn + more, |p.blocks|, log, s.tx);
  }

  lemma ReceiverRunIsHistory(p: Setting, s: State, more: seq<Reading>, log: RL.Log)
    requires Sound(p, s) && ReceiverDone(p, s) && ReceiverRan(p, s.rxIn + more, log)
    ensures log == s.rx
  {
    hide RL.Ended;
    assert RL.HearRounds(p.rxCfg, s.rxIn + more, |s.rx|) == RL.Rounds(s.rx, more);
    RunIsUnique(p.rxCfg, s.rxIn + more, p.room, log, s.rx);
  }

  /**
   One-way agreement: run the two loops on what a strict line brought them (whatever it brings later).
   If the send loop returns a count, the receive loop returns the same count, with the complete file
   stored.  This includes the receiver that acknowledges a block and then has no room for it.
   */
  lemma OneWayAgreement(p: Setting, steps: seq<Step>, txMore: seq<Reading>, rxMore: seq<Reading>,
                        txLog: SL.Answers, rxLog: RL.Log)
    requires p.Valid() && p.strict && Possible(p, steps) && SenderDone(p, After(p, steps))
    requires SenderRan(p, After(p, steps).txIn + txMore, txLog)
    requires ReceiverRan(p, After(p, steps).rxIn + rxMore, rxLog)
    requires SL.Result(p.blocks, txLog) >= 0
    ensures RL.Result(p.room, rxLog) == SL.Result(p.blocks, txLog)
    ensures RL.Stored(p.room, rxLog) == SL.Concat(p.blocks)
  {
    hide SenderRan, ReceiverRan, Sound, Possible, After;
    var s := After(p, steps);
    InStepSafety(p, steps);
    SoundAfter(p, steps);
    SenderRunIsHistory(p, s, txMore, txLog);
    assert HasEnded(s.rx);
    ReceiverRunIsHistory(p, s, rxMore, rxLog);
  }

  lemma SoundAfter(p: Setting, steps: seq<Step>)
    requires p.Valid() && p.Tells() && Possible(p, steps)
    ensures Sound(p, After(p, steps)) && RL.Accepted(After(p, steps).rx) <= |p.blocks|
  {
    InvariantHolds(p, steps);
  }

  /** A receiver 256 blocks behind takes the wrong block for the next one. */
  lemma WrapConfuses(p: Setting, r: nat)
    requires p.Valid() && r + 256 < |p.blocks|
    ensures RL.Hear(p.rxCfg, r, Readings(SL.Item(p.txCfg, p.blocks, r + 256))).event == RL.Block(p.blocks[r + 256])
  {
    hide RL.Hear, SL.Item, Readings, IsRound;
    ItemIsRound(p, r + 256, r);
  }

  // ----------------------------------------------------------------- what the line carries

  /** The items the steps put on the line. */
  function Sends(p: Setting, steps: seq<Step>): seq<seq<byte>>
    requires p.Sized()
  {
    if steps == [] then []
    else
      var before, last := steps[..|steps| - 1], steps[|steps| - 1];
      Sends(p, before) + if last.Deliver? || last.Garble? || last.Lose? then [CurrentItem(p, After(p, before))] else []
  }

  /** They are what the sender has sent by then, one item for every answer, and one more while it waits. */
  lemma {:induction false} LineCarriesItems(p: Setting, steps: seq<Step>)
    requires p.Sized() && Possible(p, steps)
    ensures var s := After(p, steps);
            Sends(p, steps) == SL.Emitted(p.txCfg, p.blocks, s.tx) + if s.waiting then [CurrentItem(p, s)] else []
    decreases |steps|
  {
    hide SL.Emitted, SL.Item, SL.Acks, SL.Done, RL.Hear, RL.Ended, IsWait, IsRound, Received;
    if steps == [] {
      NothingSent(p);
    } else {
      var before, last := steps[..|steps| - 1], steps[|steps| - 1];
      LineCarriesItems(p, before);
      var s := After(p, before);
      if last.Answer? {
        SL.EmittedExtends(p.txCfg, p.blocks, s.tx, last.answer);
      }
    }
  }

  lemma NothingSent(p: Setting)
    requires p.Sized()
    ensures SL.Emitted(p.txCfg, p.blocks, []) == []
  {
  }

  /** An ACK is on its way exactly when the receiver has just sent one. */
  lemma AcknowledgedIsAck(room: int, log: RL.Log, event: RL.Event)
    ensures Acknowledged(event) <==> [ACK] in RL.LastReplies(room, log + [event])
  {
    assert RL.Last(log + [event]) == event;
    var first := RL.LastReplies(room, log + [event]);
    if Acknowledged(event) { assert first[0] == [ACK]; }
  }
}
