/** Runs of the two parties that exist: the undisturbed one, and the one that loses the last answer. */
module LinkRuns {
  import opened Bytes
  import opened Protocol
  import opened Modem
  import opened Link
  import opened Faults
  import opened RR = ReceiverRuns
  import RL = ReceiverLog
  import SL = SenderLog

  /** Ten reads in vain. */
  function TenSilences(): seq<Reading> { Repeat([], MAX_RETRY) }

  lemma {:induction false} SilenceHeard(n: nat, rest: seq<Reading>)
    ensures SL.Listen(Repeat([], n) + rest, n) == SL.Listened(SL.NoAnswer, rest)
  {
    var inp := Repeat([], n) + rest;
    if n == 0 {
      assert inp == rest;
    } else {
      assert inp[0] == [] && inp[1..] == Repeat([], n - 1) + rest;
      SilenceHeard(n - 1, rest);
    }
  }

  /** A turn: the current item arrives, and its answer is heard, or is not. */
  function Turn(heard: bool): seq<Step> {
    [Deliver, if heard then Answer([[ACK]], SL.Ack) else Answer(TenSilences(), SL.NoAnswer)]
  }

  lemma AnswerIsWait(heard: bool)
    ensures var step := Turn(heard)[1]; IsWait(step.reading, step.answer)
  {
    if heard {
      SingleByteWait(ACK);
    } else {
      forall rest ensures SL.Listen(TenSilences() + rest, MAX_RETRY) == SL.Listened(SL.NoAnswer, rest) {
        SilenceHeard(MAX_RETRY, rest);
      }
    }
  }

  /** The first k items in turn, each acknowledged at once. */
  function InTurn(k: nat): seq<Step> { if k == 0 then [] else InTurn(k - 1) + Turn(true) }

  /** Then the next item j times, no answer to it being heard. */
  function Unanswered(k: nat, j: nat): seq<Step> { if j == 0 then InTurn(k) else Unanswered(k, j - 1) + Turn(false) }

  /** The sender waits for nothing; it has k items acknowledged, and sent the next one in vain j times. */
  ghost predicate SenderAt(p: Setting, s: State, k: nat, j: nat) {
    !s.waiting && SL.Acks(s.tx) == k && SL.Misses(s.tx) == j && (s.tx != [] ==> !SL.Last(s.tx).Other?)
  }

  /** The receiver has taken k items and knows of no failure. */
  ghost predicate ReceiverAt(p: Setting, rx: RL.Log, k: nat) {
    if k <= |p.blocks| then
      !RL.Ended(p.room, rx) && RL.Accepted(rx) == k && RL.Payload(rx) == SL.Concat(p.blocks[..k])
    else
      RL.Ended(p.room, rx) && RL.Accepted(rx) == |p.blocks| && HasEnded(rx) && RL.Payload(rx) == SL.Concat(p.blocks)
  }

  lemma {:induction false} TwoSteps(p: Setting, steps: seq<Step>, a: Step, b: Step)
    requires p.Sized() && Possible(p, steps)
    requires var s := After(p, steps); Enabled(p, s, a) && Enabled(p, Next(p, s, a), b)
    ensures Possible(p, steps + [a, b]) && After(p, steps + [a, b]) == Next(p, Next(p, After(p, steps), a), b)
  {
    hide Enabled, Next;
    var one, two := steps + [a], steps + [a, b];
    assert one[..|one| - 1] == steps && one[|one| - 1] == a;
    assert two[..|two| - 1] == one && two[|two| - 1] == b;
  }

  /** An item that the receiver waits for is taken. */
  lemma ItemTaken(p: Setting, rx: RL.Log, k: nat)
    requires p.Valid() && Fits(p) && k <= |p.blocks| && ReceiverAt(p, rx, k)
    ensures RL.Hear(p.rxCfg, RL.Accepted(rx), Readings(SL.Item(p.txCfg, p.blocks, k))).event == Intact(p, k)
    ensures ReceiverAt(p, rx + [Intact(p, k)], k + 1)
  {
    hide SL.Concat, SL.Item, RL.Hear, RL.Accepted, RL.Payload, RL.Failures, RL.Cancels, RL.Replies, RL.Result,
      RL.Stored, RL.Overflows, Readings, IsRound;
    ItemIsRound(p, k, k);
    RL.Extend(p.room, rx, Intact(p, k));
    assert RL.Last(rx + [Intact(p, k)]) == Intact(p, k);
    if k < |p.blocks| {
      BlockFits(p, k);
    } else {
      assert p.blocks[..k] == p.blocks;
    }
  }

  /** One turn on a strict line: at item k with the receiver at t, which is k or, after a loss, k + 1. */
  lemma OneTurn(p: Setting, steps: seq<Step>, k: nat, j: nat, t: nat, heard: bool)
    requires p.Valid() && p.strict && Fits(p) && Possible(p, steps) && k <= |p.blocks| && j < MAX_RETRY
    requires SenderAt(p, After(p, steps), k, j) && ReceiverAt(p, After(p, steps).rx, t)
    requires t == k || (t == k + 1 == |p.blocks| + 1 && !heard)
    ensures var s := After(p, steps + Turn(heard));
            Possible(p, steps + Turn(heard)) && ReceiverAt(p, s.rx, k + 1) &&
            if heard then SenderAt(p, s, k + 1, 0) else SenderAt(p, s, k, j + 1)
  {
    hide SL.Concat, SL.Item, RL.Hear, RL.Ended, RL.Accepted, RL.Payload, SL.Acks, SL.Misses, Readings, IsWait,
      Possible, After;
    var s, answer := After(p, steps), Turn(heard)[1];
    AnswerIsWait(heard);
    if t == k { ItemTaken(p, s.rx, k); }
    SL.Extend(|p.blocks|, s.tx, answer.answer);
    assert SL.Last(s.tx + [answer.answer]) == answer.answer;
    var next := Next(p, s, Deliver);
    assert Enabled(p, s, Deliver);
    assert next.waiting && next.tx == s.tx && (t == k ==> next.rx == s.rx + [Intact(p, k)] && next.acked);
    assert Enabled(p, next, answer);
    TwoSteps(p, steps, Deliver, answer);
  }

  lemma {:induction false} InTurnReaches(p: Setting, k: nat)
    requires p.Valid() && p.strict && Fits(p) && k <= |p.blocks| + 1
    ensures Possible(p, InTurn(k)) && SenderAt(p, After(p, InTurn(k)), k, 0)
    ensures ReceiverAt(p, After(p, InTurn(k)).rx, k)
  {
    hide SenderAt, ReceiverAt, Possible, After, Fits;
    if k == 0 {
      AtStart(p);
    } else {
      InTurnReaches(p, k - 1);
      OneTurn(p, InTurn(k - 1), k - 1, 0, k - 1, true);
    }
  }

  lemma AtStart(p: Setting)
    requires p.Sized()
    ensures Possible(p, []) && SenderAt(p, After(p, []), 0, 0) && ReceiverAt(p, After(p, []).rx, 0)
  {
    assert p.blocks[..0] == [];
  }

  lemma {:induction false} UnansweredReaches(p: Setting, j: nat)
    requires p.Valid() && p.strict && Fits(p) && j <= MAX_RETRY
    ensures var s := After(p, Unanswered(|p.blocks|, j));
            Possible(p, Unanswered(|p.blocks|, j)) && SenderAt(p, s, |p.blocks|, j) &&
            ReceiverAt(p, s.rx, if j == 0 then |p.blocks| else |p.blocks| + 1)
  {
    hide SenderAt, ReceiverAt, Possible, After, Fits;
    var n := |p.blocks|;
    if j == 0 {
      InTurnReaches(p, n);
    } else {
      UnansweredReaches(p, j - 1);
      OneTurn(p, Unanswered(n, j - 1), n, j - 1, if j == 1 then n else n + 1, false);
    }
  }

  /** Undisturbed, every file that fits is transferred, and both sides return its padded length. */
  lemma Undisturbed(p: Setting) returns (steps: seq<Step>)
    requires p.Valid() && p.strict && Fits(p)
    ensures Possible(p, steps) && SenderDone(p, After(p, steps)) && ReceiverDone(p, After(p, steps))
    ensures SL.Result(p.blocks, After(p, steps).tx) == RL.Result(p.room, After(p, steps).rx) == |SL.Concat(p.blocks)|
  {
    steps := InTurn(|p.blocks| + 1);
    InTurnReaches(p, |p.blocks| + 1);
    hide After, Possible, SL.Concat, SL.Acks, SL.Misses, RL.Payload, RL.Failures, RL.Cancels, RL.Accepted;
    assert After(p, steps).tx != [] by { NothingAcked(After(p, steps).tx); }
  }

  lemma NothingAcked(tx: SL.Answers)
    requires SL.Acks(tx) > 0 || SL.Misses(tx) > 0
    ensures tx != []
  {
  }

  /**
   Agreement is one-way: whatever the file, if no answer to the end of transmission gets through, the
   receiver has the complete file and returns its length, and the sender returns -1.
   */
  lemma LastAnswerLost(p: Setting) returns (steps: seq<Step>)
    requires p.Valid() && p.strict && Fits(p)
    ensures Possible(p, steps) && SenderDone(p, After(p, steps)) && ReceiverDone(p, After(p, steps))
    ensures SL.Result(p.blocks, After(p, steps).tx) == -1
    ensures RL.Result(p.room, After(p, steps).rx) == |SL.Concat(p.blocks)|
  {
    steps := Unanswered(|p.blocks|, MAX_RETRY);
    UnansweredReaches(p, MAX_RETRY);
    hide After, Possible, SL.Concat, SL.Acks, SL.Misses, RL.Payload, RL.Failures, RL.Cancels, RL.Accepted;
    assert After(p, steps).tx != [] by { NothingAcked(After(p, steps).tx); }
  }

  // ------------------------------------------------------- numbers that come round again

  /** The first k items lost, and an ACK forged for each. */
  function Forged(k: nat): seq<Step> {
    if k == 0 then [] else Forged(k - 1) + [Lose, Answer([[ACK]], SL.Ack)]
  }

  lemma {:induction false} ForgedReaches(p: Setting, k: nat)
    requires p.Sized() && !p.strict && k <= |p.blocks|
    ensures Possible(p, Forged(k)) && SenderAt(p, After(p, Forged(k)), k, 0) && After(p, Forged(k)).rx == []
  {
    hide Possible, After, SL.Acks, SL.Misses, IsWait;
    if k == 0 {
      AtStart(p);
      StartsWith(p);
    } else {
      ForgedReaches(p, k - 1);
      var s := After(p, Forged(k - 1));
      SingleByteWait(ACK);
      SL.Extend(|p.blocks|, s.tx, SL.Ack);
      assert SL.Last(s.tx + [SL.Ack]) == SL.Ack;
      assert Enabled(p, s, Lose);
      TwoSteps(p, Forged(k - 1), Lose, Answer([[ACK]], SL.Ack));
    }
  }

  lemma StartsWith(p: Setting)
    requires p.Sized()
    ensures After(p, []) == START
  {
  }

  /**
   The bound on a loose line is sharp: on one that lets the sides get 256 blocks apart, block 256 is
   stored in the place of block 0.
   */
  lemma NumbersComeRound(p: Setting) returns (steps: seq<Step>)
    requires p.Valid() && !p.strict && p.window > 256
    requires |p.blocks| > 256 && p.blocks[0] != p.blocks[256] && |p.blocks[256]| < p.room
    ensures Possible(p, steps) && !StoredInOrder(p, After(p, steps))
  {
    hide Enabled, Possible, After, SL.Acks, SL.Misses, RL.Hear, SL.Item, Readings;
    steps := Forged(256) + [Deliver];
    ForgedReaches(p, 256);
    var s := After(p, Forged(256));
    NextIsDelivered(p, s);
    ItemIsRound(p, 256, 0);
    OneMoreStep(p, Forged(256), Deliver);
    WrongBlockStored(p, [RL.Block(p.blocks[256])]);
  }

  lemma NextIsDelivered(p: Setting, s: State)
    requires p.Sized() && SenderAt(p, s, 256, 0) && s.rx == [] && p.window > 256 && |p.blocks| > 256
    ensures Enabled(p, s, Deliver) && RL.Accepted(s.rx) == 0
    ensures Next(p, s, Deliver).rx == [RL.Hear(p.rxCfg, 0, Readings(SL.Item(p.txCfg, p.blocks, 256))).event]
  {
    hide SL.Acks, SL.Misses, RL.Hear, SL.Item, Readings;
    assert s.rx + [RL.Hear(p.rxCfg, 0, Readings(SL.Item(p.txCfg, p.blocks, 256))).event] ==
           [RL.Hear(p.rxCfg, 0, Readings(SL.Item(p.txCfg, p.blocks, 256))).event];
  }

  lemma OneMoreStep(p: Setting, steps: seq<Step>, a: Step)
    requires p.Sized() && Possible(p, steps) && Enabled(p, After(p, steps), a)
    ensures Possible(p, steps + [a]) && After(p, steps + [a]) == Next(p, After(p, steps), a)
  {
    hide Enabled, Next;
    var one := steps + [a];
    assert one[..|one| - 1] == steps && one[|one| - 1] == a;
  }

  lemma WrongBlockStored(p: Setting, rx: RL.Log)
    requires |p.blocks| > 256 && p.blocks[0] != p.blocks[256] && |p.blocks[256]| < p.room
    requires rx == [RL.Block(p.blocks[256])]
    ensures StoredBlocks(p.room, rx) == 1 && RL.Stored(p.room, rx) != SL.Concat(p.blocks[..1])
  {
    hide RL.Overflows, RL.Ended, RL.Replies, RL.Result, RL.Stored, RL.LastReplies, SL.Concat;
    var e := RL.Block(p.blocks[256]);
    RL.Extend(p.room, [], e);
    assert rx == [] + [e];
    OneBlock(p.blocks);
    StoredIs(p.room, rx);
  }

  lemma StoredIs(room: int, rx: RL.Log)
    requires !RL.Overflows(room, rx)
    ensures RL.Stored(room, rx) == RL.Payload(rx) && StoredBlocks(room, rx) == RL.Accepted(rx)
  {
  }

  lemma OneBlock(blocks: seq<seq<byte>>)
    requires blocks != []
    ensures SL.Concat(blocks[..1]) == blocks[0]
  {
    assert blocks[..1] == [blocks[0]] && blocks[..1][1..] == [];
  }
}
