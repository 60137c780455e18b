/** What the answers to a sender are in bytes, and that a cancelling receiver stops it. */
module SenderBytes {
  import opened Bytes
  import opened Protocol
  import opened Modem
  import opened SenderLog
  import opened SenderRuns
  import RL = ReceiverLog

  /** A byte that comes within the attempts is the answer: an ACK is 0x06 and nothing else, a NAK 0x15. */
  lemma {:induction false} AnswerInBytes(quiet: seq<Reading>, b: byte, rest: seq<Reading>, tries: nat)
    requires Quiet(quiet) && |quiet| < tries
    ensures var l := Listen(quiet + ([[b]] + rest), tries);
            (l.answer == Ack <==> b == 0x06) && (l.answer == Nak <==> b == 0x15) &&
            (l.answer == Other <==> b != 0x06 && b != 0x15) && l.rest == rest
    decreases |quiet|
  {
    var inp := quiet + ([[b]] + rest);
    if quiet == [] {
      assert inp[0] == [b] && inp[1..] == rest;
    } else {
      assert inp[0] == quiet[0] && inp[1..] == quiet[1..] + ([[b]] + rest);
      AnswerInBytes(quiet[1..], b, rest, tries - 1);
    }
  }

  /** As many failed attempts as there are, and nothing more, are no answer. */
  lemma {:induction false} NoAnswerInBytes(quiet: seq<Reading>, rest: seq<Reading>)
    requires Quiet(quiet)
    ensures Listen(quiet + rest, |quiet|) == Listened(NoAnswer, rest)
    decreases |quiet|
  {
    var inp := quiet + rest;
    if quiet == [] {
      assert inp == rest;
    } else {
      assert inp[0] == quiet[0] && inp[1..] == quiet[1..] + rest;
      NoAnswerInBytes(quiet[1..], rest);
    }
  }

  /** The first unknown answer to an item is forgiven; a second one, or one behind a miss, is not. */
  lemma UnknownAnswers(blocks: seq<seq<byte>>, log: Answers)
    requires !Done(|blocks|, log)
    ensures Misses(log) == 0 ==> !Done(|blocks|, log + [Other])
    ensures Misses(log) > 0 ==> Done(|blocks|, log + [Other]) && Result(blocks, log + [Other]) == -1
    ensures Done(|blocks|, log + [Other] + [Other]) && Result(blocks, log + [Other] + [Other]) == -1
  {
    hide Acks, Misses, Concat;
    StillToDo(|blocks|, log);
    Extend(|blocks|, log, Other);
    Extend(|blocks|, log + [Other], Other);
  }

  lemma StillToDo(n: nat, log: Answers)
    requires !Done(n, log)
    ensures Acks(log) <= n
  {
  }

  lemma HearUnknown(inp: seq<Reading>, k: nat, before: Answers, rest: seq<Reading>)
    requires ListenRounds(inp, k) == Waits(before, rest) && rest != [] && rest[0] == [0x18]
    ensures ListenRounds(inp, k + 1) == Waits(before + [Other], rest[1..])
  {
    AnswerInBytes([], 0x18, rest[1..], MAX_RETRY);
    assert rest == [] + ([[0x18]] + rest[1..]);
  }

  /**
   A receiver that cancels stops the sender: if the two bytes of its message, 0x18 and 0x18, are the next
   answers of a transfer that is not done, it ends with -1, at the second of them at the latest.
   */
  lemma {:induction false} CancelStops(blocks: seq<seq<byte>>, inp: seq<Reading>, k: nat, log: Answers)
    requires forall j: nat :: j <= k ==> !Done(|blocks|, ListenRounds(inp, k).log[..j])
    requires |ListenRounds(inp, k).rest| >= 2
    requires ListenRounds(inp, k).rest[0] == ListenRounds(inp, k).rest[1] == [0x18]
    requires IsRun(|blocks|, log) && log == ListenRounds(inp, |log|).log
    ensures k < |log| <= k + 2 && Result(blocks, log) == -1
  {
    hide ListenRounds, Listen, Done, Result, Acks, Misses;
    var before, rest := ListenRounds(inp, k).log, ListenRounds(inp, k).rest;
    assert before[..k] == before;
    HearUnknown(inp, k, before, rest);
    var one := before + [Other];
    Extend(|blocks|, before, Other);
    UnknownAnswers(blocks, before);
    if Done(|blocks|, one) {
      assert Misses(before) > 0;
      RunIsUnique(inp, |blocks|, log, one);
    } else {
      HearUnknown(inp, k + 1, one, rest[1..]);
      Extend(|blocks|, one, Other);
      RunIsUnique(inp, |blocks|, log, one + [Other]);
    }
  }

  /** The message of a cancelling receiver. */
  lemma CancelInBytes()
    ensures RL.CANCEL == [0x18, 0x18]
  {
  }
}
