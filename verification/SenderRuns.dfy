/** What holds of every complete run of the sender. */
module SenderRuns {
  import opened Bytes
  import opened Protocol
  import opened Modem
  import opened SenderLog

  // ------------------------------------------------------------- how long a run is

  lemma {:induction false} LengthBound(n: nat, log: Answers)
    requires forall k: nat :: k < |log| ==> !Done(n, log[..k])
    ensures |log| <= MAX_RETRY * Acks(log) + Misses(log)
    decreases |log|
  {
    if log == [] {
    } else {
      var before := Front(log);
      assert !Done(n, before) by { assert log[..|log| - 1] == before; }
      forall k: nat | k < |before| ensures !Done(n, before[..k]) { assert before[..k] == log[..k]; }
      LengthBound(n, before);
    }
  }

  /** Ten emissions for every block and for the end of transmission at most. */
  lemma RunIsShort(n: nat, log: Answers)
    requires IsRun(n, log)
    ensures |log| <= MAX_RETRY * (n + 1)
  {
    var before := Front(log);
    assert before == log[..|log| - 1];
    assert forall k: nat :: k < |before| ==> before[..k] == log[..k];
    LengthBound(n, before);
    if before != [] {
      assert Acks(before) <= n && Misses(before) < MAX_RETRY;
    }
  }

  lemma {:induction false} ListenPrefix(inp: seq<Reading>, k: nat, n: nat)
    requires k <= n
    ensures ListenRounds(inp, n).log[..k] == ListenRounds(inp, k).log
    decreases n
  {
    var l := ListenRounds(inp, n).log;
    if k < n {
      ListenPrefix(inp, k, n - 1);
      assert l[..n - 1] == ListenRounds(inp, n - 1).log;
      assert l[..k] == l[..n - 1][..k];
    } else {
      assert l[..n] == l;
    }
  }

  /** Two runs of the same input are the same run. */
  lemma {:induction false} RunIsUnique(inp: seq<Reading>, n: nat, a: Answers, b: Answers)
    requires IsRun(n, a) && a == ListenRounds(inp, |a|).log
    requires IsRun(n, b) && b == ListenRounds(inp, |b|).log
    ensures a == b
  {
    if |a| < |b| {
      ListenPrefix(inp, |a|, |b|);
    } else if |b| < |a| {
      ListenPrefix(inp, |b|, |a|);
    }
  }

  // ------------------------------------------------------------- the shape of the output

  /** The first items, each repeated so many times. */
  function Repeated(cfg: Config, blocks: seq<seq<byte>>, counts: seq<nat>): seq<seq<byte>>
    requires forall i :: 0 <= i < |blocks| ==> IsBlockSize(|blocks[i]|)
  {
    if counts == [] then []
    else
      var k := |counts| - 1;
      Repeated(cfg, blocks, counts[..k]) + Repeat(Item(cfg, blocks, k), counts[k])
  }

  /** The items are sent in order, each one to ten times; only the last one may lack its acknowledgement. */
  ghost predicate HasShape(cfg: Config, blocks: seq<seq<byte>>, log: Answers, counts: seq<nat>)
    requires forall i :: 0 <= i < |blocks| ==> IsBlockSize(|blocks[i]|)
  {
    Emitted(cfg, blocks, log) == Repeated(cfg, blocks, counts) &&
    (forall i :: 0 <= i < |counts| ==> 1 <= counts[i] <= 10) &&
    |counts| == Acks(log) + (if Misses(log) > 0 then 1 else 0) &&
    (Misses(log) > 0 ==> counts[|counts| - 1] == Misses(log))
  }

  /**
   The bytes on the line are the first item one to ten times, then the second item one to ten times,
   and so on in order: repeats are identical, nothing is skipped, and the next item follows an
   acknowledgement only.  Every item but possibly the last one sent was acknowledged.
   */
  lemma {:induction false} OutputShape(cfg: Config, blocks: seq<seq<byte>>, log: Answers) returns (counts: seq<nat>)
    requires forall i :: 0 <= i < |blocks| ==> IsBlockSize(|blocks[i]|)
    requires forall k: nat :: k < |log| ==> !Done(|blocks|, log[..k])
    ensures HasShape(cfg, blocks, log, counts)
    decreases |log|
  {
    hide Item, Emitted, Repeated, Done, Acks, Misses;
    if log == [] {
      counts := [];
      NothingEmitted(cfg, blocks);
    } else {
      var before, a := Front(log), Last(log);
      assert log == before + [a];
      PrefixNotDone(|blocks|, log);
      var c := OutputShape(cfg, blocks, before);
      Extend(|blocks|, before, a);
      if Misses(before) == 0 {
        counts := c + [1];
      } else {
        counts := c[..|c| - 1] + [c[|c| - 1] + 1];
      }
      OneMore(cfg, blocks, before, a, c, counts);
    }
  }

  lemma NothingEmitted(cfg: Config, blocks: seq<seq<byte>>)
    requires forall i :: 0 <= i < |blocks| ==> IsBlockSize(|blocks[i]|)
    ensures Emitted(cfg, blocks, []) == Repeated(cfg, blocks, []) == [] && Acks([]) == Misses([]) == 0
  {
  }

  lemma PrefixNotDone(n: nat, log: Answers)
    requires log != [] && forall k: nat :: k < |log| ==> !Done(n, log[..k])
    ensures forall k: nat :: k < |Front(log)| ==> !Done(n, Front(log)[..k])
    ensures Misses(Front(log)) < MAX_RETRY
  {
    var before := Front(log);
    assert before == log[..|log| - 1];
    forall k: nat | k < |before| ensures !Done(n, before[..k]) { assert before[..k] == log[..k]; }
  }

  lemma OneMore(cfg: Config, blocks: seq<seq<byte>>, before: Answers, a: Answer, c: seq<nat>, counts: seq<nat>)
    requires forall i :: 0 <= i < |blocks| ==> IsBlockSize(|blocks[i]|)
    requires Emitted(cfg, blocks, before) == Repeated(cfg, blocks, c)
    requires |c| == Acks(before) + if Misses(before) > 0 then 1 else 0
    requires counts == if Misses(before) == 0 then c + [1] else c[..|c| - 1] + [c[|c| - 1] + 1]
    ensures Emitted(cfg, blocks, before + [a]) == Repeated(cfg, blocks, counts)
    ensures |counts| == Acks(before + [a]) + if Misses(before + [a]) > 0 then 1 else 0
  {
    hide Item, Emitted, Acks, Misses, Done;
    EmittedExtends(cfg, blocks, before, a);
    Extend(|blocks|, before, a);
    var item := Item(cfg, blocks, Acks(before));
    if Misses(before) == 0 {
      assert counts[..|c|] == c && Repeat(item, 1) == [item];
    } else {
      var k := |c| - 1;
      assert counts[..k] == c[..k] && counts[k] == c[k] + 1;
      assert Repeat(item, c[k] + 1) == Repeat(item, c[k]) + [item];
    }
  }

  // ------------------------------------------------------------------------ padding

  lemma {:induction false} PaddingAtEnd(d: nat, file: seq<byte>) returns (pad: nat)
    requires IsBlockSize(d)
    ensures Padded(d, file) == file + Repeat(0x1a as byte, pad)
    ensures pad <= if d == 128 then 127 else 895
    decreases |file|
  {
    if file == [] {
      pad := 0;
    } else {
      var rest := Cut(d, file);
      PaddedStep(d, file);
      if rest == [] {
        pad := |Chunk(d, file)| - |file|;
        LastChunk(d, file);
      } else {
        pad := PaddingAtEnd(d, rest);
        FullChunk(d, file);
        assert (Chunk(d, file) + rest) + Repeat(SUB, pad) == Chunk(d, file) + (rest + Repeat(SUB, pad));
      }
    }
  }

  lemma PaddedStep(d: nat, file: seq<byte>)
    requires IsBlockSize(d) && file != []
    ensures Padded(d, file) == Chunk(d, file) + Padded(d, Cut(d, file))
    ensures Padded(d, []) == []
  {
    hide Chunk, Cut;
    assert Chunks(d, file)[1..] == Chunks(d, Cut(d, file));
  }

  lemma LastChunk(d: nat, file: seq<byte>)
    requires IsBlockSize(d) && file != [] && Cut(d, file) == []
    ensures |file| <= |Chunk(d, file)| <= |file| + (if d == 128 then 127 else 895)
    ensures Chunk(d, file) == file + Repeat(SUB, |Chunk(d, file)| - |file|)
  {
    assert file[..|file|] == file;
  }

  lemma FullChunk(d: nat, file: seq<byte>)
    requires IsBlockSize(d) && file != [] && Cut(d, file) != []
    ensures file == Chunk(d, file) + Cut(d, file)
  {
    assert file == file[..d] + file[d..];
  }

  lemma PaddedLength(d: nat, file: seq<byte>)
    requires IsBlockSize(d)
    ensures file <= Padded(d, file)
    ensures |file| <= |Padded(d, file)| <= |file| + if d == 128 then 127 else 895
    ensures file != [] ==> Padded(d, file) != [] && Chunks(d, file) != []
  {
    var pad := PaddingAtEnd(d, file);
  }

  lemma {:induction false} PaddedIsWhole(blocks: seq<seq<byte>>)
    requires forall i :: 0 <= i < |blocks| ==> IsBlockSize(|blocks[i]|)
    ensures |Concat(blocks)| % 128 == 0
    decreases |blocks|
  {
    if blocks == [] {
    } else {
      PaddedIsWhole(blocks[1..]);
    }
  }

  // ------------------------------------------------------------------------ outcome

  /** So many misses: none of the last emissions was acknowledged. */
  lemma {:induction false} MissesMean(log: Answers, k: nat)
    ensures Misses(log) >= k <==> |log| >= k && forall i :: |log| - k <= i < |log| ==> !log[i].Ack?
    decreases k
  {
    if k == 0 || log == [] {
    } else {
      MissesMean(Front(log), k - 1);
    }
  }

  /**
   The outcome of every run: -1 on ten answers in a row that are no ACK, or on an unknown one behind
   another that is no ACK; otherwise the run ends with the ACK of the end of transmission, all blocks are
   acknowledged, and the result is the length of the blocks.
   */
  lemma Outcome(blocks: seq<seq<byte>>, log: Answers)
    requires IsRun(|blocks|, log)
    ensures Result(blocks, log) == -1 <==>
            || (|log| >= 10 && forall i :: |log| - 10 <= i < |log| ==> !log[i].Ack?)
            || (|log| >= 2 && Last(log).Other? && !log[|log| - 2].Ack?)
    ensures Result(blocks, log) != -1 ==>
              Last(log).Ack? && Acks(log) == |blocks| + 1 && Result(blocks, log) == |Concat(blocks)|
  {
    hide Concat;
    MissesMean(log, 10);
    MissesMean(log, 2);
    var before := Front(log);
    assert before == log[..|log| - 1];
    assert log == before + [Last(log)];
    Extend(|blocks|, before, Last(log));
    StillOpen(|blocks|, before);
  }

  lemma StillOpen(n: nat, log: Answers)
    requires !Done(n, log)
    ensures Acks(log) <= n
  {
  }
}
