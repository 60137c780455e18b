/**
 What a sender does, told as the history of the answers it got: how an answer is read off the line,
 how the file is cut in blocks, when the history ends the transfer, and what was sent by then.
 */
module SenderLog {
  import opened Bytes
  import opened Protocol
  import opened Modem

  /** What one emission was answered with; CAN is not told from other bytes. */
  datatype Answer = Ack | Nak | Other | NoAnswer

  type Answers = seq<Answer>

  datatype Listened = Listened(answer: Answer, rest: seq<Reading>)

  function AnswerOf(b: byte): Answer { if b == ACK then Ack else if b == NAK then Nak else Other }

  /** The first byte within so many attempts to read. */
  function Listen(inp: seq<Reading>, tries: nat): Listened {
    if tries == 0 then Listened(NoAnswer, inp)
    else if inp == [] then Listened(NoAnswer, [])
    else if |inp[0]| == 1 then Listened(AnswerOf(inp[0][0]), inp[1..])
    else Listen(inp[1..], tries - 1)
  }

  datatype Waits = Waits(log: Answers, rest: seq<Reading>)

  /** The answers to the first n emissions. */
  function ListenRounds(inp: seq<Reading>, n: nat): (w: Waits)
    ensures |w.log| == n
  {
    if n == 0 then Waits([], inp)
    else
      var before := ListenRounds(inp, n - 1);
      var next := Listen(before.rest, MAX_RETRY);
      Waits(before.log + [next.answer], next.rest)
  }

  // ---------------------------------------------------------------- cutting the file

  function Min(a: nat, b: nat): nat { if a < b then a else b }

  /** The data of the next block: up to d bytes, padded to the smallest block they fit in. */
  function Chunk(d: nat, file: seq<byte>): (data: seq<byte>)
    requires IsBlockSize(d) && file != []
    ensures IsBlockSize(|data|) && |data| <= d
  {
    var n := Min(d, |file|);
    file[..n] + Repeat(SUB, (if n <= 128 then 128 else 1024) - n)
  }

  /** What is left of the file after its next block. */
  function Cut(d: nat, file: seq<byte>): seq<byte> { file[Min(d, |file|)..] }

  function Chunks(d: nat, file: seq<byte>): (blocks: seq<seq<byte>>)
    requires IsBlockSize(d)
    ensures forall i :: 0 <= i < |blocks| ==> IsBlockSize(|blocks[i]|) && |blocks[i]| <= d
    decreases |file|
  {
    if file == [] then [] else [Chunk(d, file)] + Chunks(d, Cut(d, file))
  }

  function Concat(blocks: seq<seq<byte>>): seq<byte> {
    if blocks == [] then [] else blocks[0] + Concat(blocks[1..])
  }

  /** The whole data part of a transfer: the file, padded. */
  function Padded(d: nat, file: seq<byte>): seq<byte>
    requires IsBlockSize(d)
  {
    Concat(Chunks(d, file))
  }

  /** The k-th thing to send: a frame for every block, then the end of transmission. */
  function Item(cfg: Config, blocks: seq<seq<byte>>, k: nat): (item: seq<byte>)
    requires forall i :: 0 <= i < |blocks| ==> IsBlockSize(|blocks[i]|)
    ensures item != []
  {
    if k < |blocks| then Frame(cfg.SenderUsesCrc(), BlockNo(k + 1), blocks[k]) else [EOT]
  }

  // ----------------------------------------------------------- what a history means

  function Front(log: Answers): Answers
    requires log != []
  {
    log[..|log| - 1]
  }

  function Last(log: Answers): Answer
    requires log != []
  {
    log[|log| - 1]
  }

  /** The number of items acknowledged. */
  function Acks(log: Answers): nat {
    if log == [] then 0 else Acks(Front(log)) + if Last(log).Ack? then 1 else 0
  }

  /** The emissions since the last acknowledged one. */
  function Misses(log: Answers): nat {
    if log == [] || Last(log).Ack? then 0 else Misses(Front(log)) + 1
  }

  /** All n blocks and the end of transmission acknowledged, ten misses, or two with an unknown answer. */
  predicate Done(n: nat, log: Answers) {
    log != [] && (Acks(log) > n || Misses(log) >= MAX_RETRY || (Last(log).Other? && Misses(log) >= 2))
  }

  ghost predicate IsRun(n: nat, log: Answers) {
    Done(n, log) && forall k: nat :: k < |log| ==> !Done(n, log[..k])
  }

  function Result(blocks: seq<seq<byte>>, log: Answers): int {
    if Acks(log) > |blocks| then |Concat(blocks)| else -1
  }

  /** Everything sent: before each answer, the first item not acknowledged by then. */
  function Emitted(cfg: Config, blocks: seq<seq<byte>>, log: Answers): (out: seq<seq<byte>>)
    requires forall i :: 0 <= i < |blocks| ==> IsBlockSize(|blocks[i]|)
    ensures |out| == |log|
  {
    seq(|log|, i requires 0 <= i < |log| => Item(cfg, blocks, Acks(log[..i])))
  }

  // -------------------------------------------------------------- one answer at a time

  lemma Extend(n: nat, log: Answers, a: Answer)
    ensures Acks(log + [a]) == Acks(log) + (if a.Ack? then 1 else 0)
    ensures Misses(log + [a]) == if a.Ack? then 0 else Misses(log) + 1
    ensures Done(n, log + [a]) == (Acks(log + [a]) > n || Misses(log + [a]) >= MAX_RETRY ||
                                   (a.Other? && Misses(log + [a]) >= 2))
    ensures forall k: nat :: k <= |log| ==> (log + [a])[..k] == log[..k]
    ensures log[..|log|] == log
  {
    assert Front(log + [a]) == log && Last(log + [a]) == a;
  }

  lemma EmittedExtends(cfg: Config, blocks: seq<seq<byte>>, log: Answers, a: Answer)
    requires forall i :: 0 <= i < |blocks| ==> IsBlockSize(|blocks[i]|)
    ensures Emitted(cfg, blocks, log + [a]) == Emitted(cfg, blocks, log) + [Item(cfg, blocks, Acks(log))]
  {
    assert forall i :: 0 <= i < |log| ==> (log + [a])[..i] == log[..i];
    assert (log + [a])[..|log|] == log;
  }

  // ------------------------------------------------------------------- the k-th block

  /** What is left of the file once k blocks are read. */
  function RestAfter(d: nat, file: seq<byte>, k: nat): seq<byte> {
    if k == 0 then file else Cut(d, RestAfter(d, file, k - 1))
  }

  lemma {:induction false} RestFront(d: nat, file: seq<byte>, k: nat)
    ensures RestAfter(d, Cut(d, file), k) == RestAfter(d, file, k + 1)
  {
    if k == 0 {
    } else {
      RestFront(d, file, k - 1);
    }
  }

  /** The block list, one read at a time. */
  lemma {:induction false} ChunkAt(d: nat, file: seq<byte>, k: nat)
    requires IsBlockSize(d)
    ensures k < |Chunks(d, file)| <==> RestAfter(d, file, k) != []
    ensures k < |Chunks(d, file)| ==> Chunks(d, file)[k] == Chunk(d, RestAfter(d, file, k))
    decreases k
  {
    if file == [] {
      RestOfNothing(d, k);
    } else if k > 0 {
      ChunkAt(d, Cut(d, file), k - 1);
      RestFront(d, file, k - 1);
    }
  }

  lemma {:induction false} RestOfNothing(d: nat, k: nat)
    ensures RestAfter(d, [], k) == []
  {
    if k == 0 {
    } else {
      RestOfNothing(d, k - 1);
    }
  }

  /** The length of the first k blocks. */
  function LengthOf(blocks: seq<seq<byte>>, k: nat): nat
    requires k <= |blocks|
  {
    if k == 0 then 0 else LengthOf(blocks, k - 1) + |blocks[k - 1]|
  }

  lemma {:induction false} LengthOfAll(blocks: seq<seq<byte>>)
    ensures LengthOf(blocks, |blocks|) == |Concat(blocks)|
    decreases |blocks|
  {
    if blocks == [] {
    } else {
      LengthOfAll(blocks[1..]);
      assert |Concat(blocks)| == |blocks[0]| + |Concat(blocks[1..])|;
      LengthShift(blocks, |blocks| - 1);
    }
  }

  lemma {:induction false} LengthShift(blocks: seq<seq<byte>>, k: nat)
    requires k < |blocks|
    ensures LengthOf(blocks, k + 1) == |blocks[0]| + LengthOf(blocks[1..], k)
  {
    if k == 0 {
    } else {
      LengthShift(blocks, k - 1);
    }
  }
}
