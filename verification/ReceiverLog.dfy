/**
 What a receiver does, told as the history of its rounds: how a round is read off the line, when
 the history ends the transfer, and what was stored, sent and returned by then.
 */
module ReceiverLog {
  import opened Bytes
  import opened Protocol
  import opened Modem

  /** One round of the receive loop. */
  datatype Event =
    | Silence                  // no start byte in time
    | Noise                    // a byte that starts nothing
    | Cancel
    | Damaged                  // a start byte whose block was not usable
    | Duplicate                // the previous block once more
    | Block(data: seq<byte>)   // the expected block, intact
    | End                      // end of transmission

  type Log = seq<Event>

  datatype Heard = Heard(event: Event, rest: seq<Reading>)

  // ------------------------------------------------------------ reading one round

  /** The block after a start byte; `accepted` blocks have been accepted before. */
  function HearBlock(cfg: Config, accepted: nat, size: nat, inp: seq<Reading>): Heard {
    var crc := cfg.ReceiverUsesCrc(size);
    if inp == [] || |inp[0]| != 2 + size + (if crc then 2 else 1) then
      Heard(Damaged, Tail(inp))
    else if inp[0] == Body(crc, BlockNo(accepted + 1), DataOf(inp[0], size)) then
      Heard(Block(DataOf(inp[0], size)), inp[1..])
    else if inp[0][0] == BlockNo(accepted) && inp[0][1] == Complement(BlockNo(accepted)) then
      Heard(Duplicate, inp[1..])
    else
      Heard(Damaged, inp[1..])
  }

  function Hear(cfg: Config, accepted: nat, inp: seq<Reading>): Heard {
    if inp == [] || |inp[0]| != 1 then
      Heard(Silence, Tail(inp))
    else
      var start := inp[0][0];
      if start == SOH then HearBlock(cfg, accepted, 128, inp[1..])
      else if start == STX then
        if cfg.TakesLongBlocks() then HearBlock(cfg, accepted, 1024, inp[1..]) else Heard(Damaged, inp[1..])
      else if start == EOT then Heard(End, inp[1..])
      else if start == CAN then Heard(Cancel, inp[1..])
      else Heard(Noise, inp[1..])
  }

  datatype Rounds = Rounds(log: Log, rest: seq<Reading>)

  /** The first n rounds an input makes, were the receiver to go on for ever. */
  function HearRounds(cfg: Config, inp: seq<Reading>, n: nat): (h: Rounds)
    ensures |h.log| == n
  {
    if n == 0 then Rounds([], inp)
    else
      var before := HearRounds(cfg, inp, n - 1);
      var next := Hear(cfg, Accepted(before.log), before.rest);
      Rounds(before.log + [next.event], next.rest)
  }

  // ------------------------------------------------------------ what a history means

  function Last(log: Log): Event
    requires log != []
  {
    log[|log| - 1]
  }

  function Front(log: Log): Log
    requires log != []
  {
    log[..|log| - 1]
  }

  /** The number of blocks accepted. */
  function Accepted(log: Log): nat {
    if log == [] then 0 else Accepted(Front(log)) + if Last(log).Block? then 1 else 0
  }

  /** The data of the accepted blocks, in order. */
  function Payload(log: Log): seq<byte> {
    if log == [] then [] else Payload(Front(log)) + if Last(log).Block? then Last(log).data else []
  }

  predicate Progress(e: Event) { e.Block? || e.End? }

  /** The rounds since the last one that made progress. */
  function Failures(log: Log): nat {
    if log == [] || Progress(Last(log)) then 0 else Failures(Front(log)) + 1
  }

  /** A start byte or the end of transmission starts the count of CAN bytes anew. */
  function NextCancels(cans: nat, e: Event): nat {
    match e
    case Cancel => cans + 1
    case Silence => cans
    case Noise => cans
    case _ => 0
  }

  /** The CAN bytes since the last start byte or end of transmission. */
  function Cancels(log: Log): nat {
    if log == [] then 0 else NextCancels(Cancels(Front(log)), Last(log))
  }

  /** The last block does not fit: the file has room for strictly smaller blocks only. */
  predicate Overflows(room: int, log: Log) {
    log != [] && Last(log).Block? && |Last(log).data| >= room - |Payload(Front(log))|
  }

  predicate TwoCancels(log: Log) { log != [] && Last(log).Cancel? && Cancels(log) >= 2 }

  /** The history ends the transfer. */
  predicate Ended(room: int, log: Log) {
    log != [] && (Last(log).End? || TwoCancels(log) || Failures(log) >= MAX_RETRY || Overflows(room, log))
  }

  /** A complete run: the history ends the transfer, and no earlier moment did. */
  ghost predicate IsRun(room: int, log: Log) {
    Ended(room, log) && forall k: nat :: k < |log| ==> !Ended(room, log[..k])
  }

  /** What was put in the file. */
  function Stored(room: int, log: Log): seq<byte> {
    if Overflows(room, log) then Payload(Front(log)) else Payload(log)
  }

  function Result(room: int, log: Log): int {
    if log != [] && Last(log).End? then |Stored(room, log)| else -1
  }

  const CANCEL: seq<byte> := [CAN, CAN]

  /** What the receiver sends in the last round of a history. */
  function LastReplies(room: int, log: Log): seq<seq<byte>>
    requires log != []
  {
    (match Last(log)
     case Silence => []
     case Noise => [[NAK]]
     case Cancel => [[NAK]]
     case Damaged => [[NAK]]
     case Duplicate => [[ACK]]
     case Block(_) => [[ACK]]
     case End => [[ACK]]) +
    if Overflows(room, log) || Failures(log) >= MAX_RETRY then [CANCEL] else []
  }

  function Replies(room: int, log: Log): seq<seq<byte>> {
    if log == [] then [] else Replies(room, Front(log)) + LastReplies(room, log)
  }

  // -------------------------------------------------------------- one round at a time

  /** What one more round does to every reading of the history. */
  lemma Extend(room: int, log: Log, e: Event)
    ensures var l := log + [e];
            Accepted(l) == Accepted(log) + (if e.Block? then 1 else 0) &&
            Payload(l) == Payload(log) + (if e.Block? then e.data else []) &&
            Failures(l) == (if Progress(e) then 0 else Failures(log) + 1) &&
            Cancels(l) == NextCancels(Cancels(log), e)
    ensures Overflows(room, log + [e]) == (e.Block? && |e.data| >= room - |Payload(log)|)
    ensures Ended(room, log + [e]) == (e.End? || (e.Cancel? && Cancels(log) >= 1) ||
                                       (!Progress(e) && Failures(log) + 1 >= MAX_RETRY) ||
                                       Overflows(room, log + [e]))
    ensures Stored(room, log + [e]) == if Overflows(room, log + [e]) then Payload(log) else Payload(log + [e])
    ensures Result(room, log + [e]) == if e.End? then |Payload(log)| else -1
    ensures Replies(room, log + [e]) == Replies(room, log) + LastReplies(room, log + [e])
    ensures forall k: nat :: k <= |log| ==> (log + [e])[..k] == log[..k]
    ensures log[..|log|] == log
  {
    var l := log + [e];
    assert Front(l) == log && Last(l) == e;
  }

  /** What the last round of a history put in the file. */
  function LastStored(room: int, log: Log): seq<byte>
    requires log != []
  {
    if Last(log).Block? && !Overflows(room, log) then Last(log).data else []
  }

  lemma StoredExtends(room: int, log: Log, e: Event)
    requires !Ended(room, log)
    ensures Stored(room, log + [e]) == Stored(room, log) + LastStored(room, log + [e])
  {
    var l := log + [e];
    assert Front(l) == log && Last(l) == e;
  }

  lemma HearOneMore(cfg: Config, inp: seq<Reading>, log: Log, rest: seq<Reading>)
    requires HearRounds(cfg, inp, |log|) == Rounds(log, rest)
    ensures var h := Hear(cfg, Accepted(log), rest);
            HearRounds(cfg, inp, |log| + 1) == Rounds(log + [h.event], h.rest)
  {
  }

  /** A history so far: what it was heard from, stored and answered. */
  ghost predicate Recorded(room: int, cfg: Config, start: seq<Reading>, log: Log, rest: seq<Reading>,
                           stored: seq<byte>, replies: seq<seq<byte>>)
  {
    Rounds(log, rest) == HearRounds(cfg, start, |log|) &&
    (forall k: nat :: k < |log| ==> !Ended(room, log[..k])) &&
    stored == Stored(room, log) && replies == Replies(room, log)
  }

  lemma RecordNothing(room: int, cfg: Config, inp: seq<Reading>)
    ensures Recorded(room, cfg, inp, [], inp, [], [])
  {
  }

  lemma RecordOneMore(room: int, cfg: Config, start: seq<Reading>, log: Log, inp: seq<Reading>,
                      stored: seq<byte>, replies: seq<seq<byte>>, event: Event, rest: seq<Reading>)
    requires Recorded(room, cfg, start, log, inp, stored, replies) && !Ended(room, log)
    requires Heard(event, rest) == Hear(cfg, Accepted(log), inp)
    ensures var l := log + [event];
            Recorded(room, cfg, start, l, rest, stored + LastStored(room, l), replies + LastReplies(room, l))
  {
    Extend(room, log, event);
    StoredExtends(room, log, event);
    HearOneMore(cfg, start, log, inp);
  }

  lemma HearNothing(cfg: Config, accepted: nat, inp: seq<Reading>)
    requires inp == [] || |inp[0]| != 1
    ensures Hear(cfg, accepted, inp) == Heard(Silence, Tail(inp))
  {
  }
}
