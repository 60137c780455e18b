/** What the rounds of a receiver are in bytes: which reading makes which event, and what is sent for it. */
module ReceiverBytes {
  import opened Protocol
  import opened Modem
  import opened ReceiverLog
  import opened ReceiverRuns

  /** A start byte that this mode heeds, and a body with the number of the previous block. */
  ghost predicate BringsPrevious(cfg: Config, accepted: nat, inp: seq<Reading>) {
    |inp| >= 2 && (inp[0] == [0x01] || (inp[0] == [0x02] && cfg.TakesLongBlocks())) &&
    |inp[1]| == (if inp[0] == [0x01] then (if cfg.ReceiverUsesCrc(128) then 132 else 131) else 1028) &&
    inp[1][0] == accepted % 256 && inp[1][1] == 255 - accepted % 256
  }

  /** The event of a round, from what is read. */
  lemma EventInBytes(cfg: Config, accepted: nat, inp: seq<Reading>)
    ensures var e := Hear(cfg, accepted, inp).event;
            (e == End <==> inp != [] && inp[0] == [0x04]) &&
            (e == Cancel <==> inp != [] && inp[0] == [0x18]) &&
            (e == Silence <==> inp == [] || |inp[0]| != 1) &&
            (e == Noise <==> inp != [] && |inp[0]| == 1 && inp[0][0] !in [0x01, 0x02, 0x04, 0x18])
    ensures Hear(cfg, accepted, inp).event == Duplicate <==> BringsPrevious(cfg, accepted, inp)
    ensures Hear(cfg, accepted, inp).event == Damaged <==>
            inp != [] && (inp[0] == [0x01] || inp[0] == [0x02]) && !BringsPrevious(cfg, accepted, inp) &&
            !Hear(cfg, accepted, inp).event.Block?
  {
    hide Sum, CheckBytes;
    if inp != [] && |inp[0]| == 1 {
      assert inp[0] == [inp[0][0]];
      if |inp| >= 2 { assert inp[1..][0] == inp[1]; }
      NumbersDiffer(accepted, accepted + 1);
    }
  }

  /** How much of the line a round takes: the body too, after a start byte that is heeded. */
  lemma RoundTakes(cfg: Config, accepted: nat, inp: seq<Reading>)
    ensures Hear(cfg, accepted, inp).rest ==
            if inp != [] && (inp[0] == [0x01] || (inp[0] == [0x02] && cfg.TakesLongBlocks())) then Tail(Tail(inp))
            else Tail(inp)
  {
    hide Sum, CheckBytes;
    if inp != [] && |inp[0]| == 1 { assert inp[0] == [inp[0][0]]; }
  }

  /** The k-th round of an input, from what it reads. */
  lemma {:induction false} RoundInBytes(cfg: Config, inp: seq<Reading>, n: nat, k: nat)
    requires k < n
    ensures var e, rest := HearRounds(cfg, inp, n).log[k], HearRounds(cfg, inp, k).rest;
            (e == End <==> rest != [] && rest[0] == [0x04]) &&
            (e == Cancel <==> rest != [] && rest[0] == [0x18]) &&
            (e == Silence <==> rest == [] || |rest[0]| != 1) &&
            (e == Noise <==> rest != [] && |rest[0]| == 1 && rest[0][0] !in [0x01, 0x02, 0x04, 0x18])
  {
    hide Hear;
    RoundIs(cfg, inp, n, k);
    EventInBytes(cfg, Accepted(HearRounds(cfg, inp, k).log), HearRounds(cfg, inp, k).rest);
  }

  lemma RoundIs(cfg: Config, inp: seq<Reading>, n: nat, k: nat)
    requires k < n
    ensures var before := HearRounds(cfg, inp, k);
            HearRounds(cfg, inp, n).log[k] == Hear(cfg, Accepted(before.log), before.rest).event
  {
    hide Hear, Accepted;
    HearPrefix(cfg, inp, k + 1, n);
    var log := HearRounds(cfg, inp, n).log;
    assert log[k] == log[..k + 1][k];
  }

  /** A count is returned only if the last round read the byte 0x04. */
  lemma {:induction false} CountNeedsEnd(cfg: Config, inp: seq<Reading>, room: int, log: Log)
    requires IsRun(room, log) && log == HearRounds(cfg, inp, |log|).log && Result(room, log) >= 0
    ensures log != []
    ensures var rest := HearRounds(cfg, inp, |log| - 1).rest; rest != [] && rest[0] == [0x04]
  {
    hide HearRounds, Stored;
    RoundInBytes(cfg, inp, |log|, |log| - 1);
    assert Last(log) == log[|log| - 1];
  }

  /** Two bytes 0x18 in a row end a live transfer with -1, the first one or the second one. */
  lemma {:induction false} TwoCancelsEnd(cfg: Config, inp: seq<Reading>, room: int, k: nat, log: Log)
    requires forall j: nat :: j <= k ==> !Ended(room, HearRounds(cfg, inp, k).log[..j])
    requires |HearRounds(cfg, inp, k).rest| >= 2
    requires HearRounds(cfg, inp, k).rest[0] == HearRounds(cfg, inp, k).rest[1] == [0x18]
    requires IsRun(room, log) && log == HearRounds(cfg, inp, |log|).log
    ensures k < |log| <= k + 2 && Result(room, log) == -1
  {
    hide HearRounds, Hear, Ended, Stored, Replies, Accepted, Failures, Cancels, Payload;
    var before, rest := HearRounds(cfg, inp, k).log, HearRounds(cfg, inp, k).rest;
    HearCancel(cfg, inp, k, before, rest);
    var one := before + [Cancel];
    assert before[..k] == before;
    Extend(room, before, Cancel);
    if Ended(room, one) {
      RunIsUnique(cfg, inp, room, log, one);
      assert Last(log) == Cancel;
    } else {
      HearCancel(cfg, inp, k + 1, one, rest[1..]);
      Extend(room, one, Cancel);
      SecondCancelEnds(room, before);
      RunIsUnique(cfg, inp, room, log, one + [Cancel]);
      assert Last(log) == Cancel;
    }
  }

  lemma HearCancel(cfg: Config, inp: seq<Reading>, k: nat, before: Log, rest: seq<Reading>)
    requires HearRounds(cfg, inp, k) == Rounds(before, rest) && rest != [] && rest[0] == [0x18]
    ensures HearRounds(cfg, inp, k + 1) == Rounds(before + [Cancel], rest[1..])
  {
    hide Hear;
    HearOneMore(cfg, inp, before, rest);
    EventInBytes(cfg, Accepted(before), rest);
    RoundTakes(cfg, Accepted(before), rest);
  }

  lemma SecondCancelEnds(room: int, before: Log)
    ensures Ended(room, before + [Cancel] + [Cancel])
  {
    hide Failures, Overflows, Payload, Accepted;
    Extend(room, before, Cancel);
    Extend(room, before + [Cancel], Cancel);
  }

  /** What is sent in a round: one byte for most events, and two bytes 0x18 behind it to cancel. */
  lemma RepliesInBytes(room: int, log: Log, e: Event)
    ensures LastReplies(room, log + [e]) ==
            (match e
             case Silence => []
             case Block(_) => [[0x06]]
             case Duplicate => [[0x06]]
             case End => [[0x06]]
             case _ => [[0x15]]) +
            if (e.Block? && |e.data| >= room - |Payload(log)|) || (!e.Block? && !e.End? && Failures(log) >= 9) then
              [[0x18, 0x18]]
            else []
  {
    hide Ended, Replies;
    Extend(room, log, e);
    assert Last(log + [e]) == e;
  }
}
