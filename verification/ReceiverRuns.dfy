/** What holds of every complete run of the receiver. */
module ReceiverRuns {
  import opened Bytes
  import opened Detection
  import opened Protocol
  import opened Modem
  import opened ReceiverLog

  // --------------------------------------------------------------- how long a run is

  /** Before the end, fewer than ten rounds pass without progress. */
  lemma {:induction false} LengthBound(room: int, log: Log)
    requires forall k: nat :: k < |log| ==> !Ended(room, log[..k])
    ensures |log| <= MAX_RETRY * Accepted(log) + Failures(log) + (if log != [] && Last(log).End? then 10 else 0)
    decreases |log|
  {
    if log == [] {
    } else {
      var before := Front(log);
      assert !Ended(room, before) by { assert log[..|log| - 1] == before; }
      forall k: nat | k < |before| ensures !Ended(room, before[..k]) { assert before[..k] == log[..k]; }
      LengthBound(room, before);
    }
  }

  ghost predicate BlocksSized(log: Log) {
    forall k :: 0 <= k < |log| && log[k].Block? ==> IsBlockSize(|log[k].data|)
  }

  lemma {:induction false} HeardBlocksSized(cfg: Config, inp: seq<Reading>, n: nat)
    ensures BlocksSized(HearRounds(cfg, inp, n).log)
  {
    if n == 0 {
    } else {
      HeardBlocksSized(cfg, inp, n - 1);
    }
  }

  lemma {:induction false} PayloadSize(log: Log)
    requires BlocksSized(log)
    ensures |Payload(log)| >= 128 * Accepted(log)
    decreases |log|
  {
    if log == [] {
    } else {
      assert Last(log) == log[|log| - 1];
      PayloadSize(Front(log));
    }
  }

  /** The number of blocks that reached the file. */
  function StoredBlocks(room: int, log: Log): nat {
    if Overflows(room, log) then Accepted(Front(log)) else Accepted(log)
  }

  /** The file never takes more than it has room for. */
  lemma {:induction false} PayloadFits(room: int, log: Log)
    requires room >= 0 && forall k: nat :: k < |log| ==> !Ended(room, log[..k])
    ensures |Stored(room, log)| <= room && (StoredBlocks(room, log) > 0 ==> |Stored(room, log)| < room)
    decreases |log|
  {
    if log == [] {
    } else {
      var before := Front(log);
      assert !Ended(room, before) by { assert log[..|log| - 1] == before; }
      forall k: nat | k < |before| ensures !Ended(room, before[..k]) { assert before[..k] == log[..k]; }
      PayloadFits(room, before);
    }
  }

  /** A run ends within ten rounds for every stored block and ten more; the room bounds the blocks. */
  lemma RunIsShort(cfg: Config, inp: seq<Reading>, room: nat, log: Log)
    requires IsRun(room, log) && log == HearRounds(cfg, inp, |log|).log
    ensures |log| <= MAX_RETRY * (StoredBlocks(room, log) + 1)
    ensures room > 0 ==> StoredBlocks(room, log) <= (room - 1) / 128
    ensures room == 0 ==> StoredBlocks(room, log) == 0
  {
    var before := Front(log);
    assert forall k: nat :: k < |before| ==> before[..k] == log[..k];
    assert before == log[..|log| - 1];
    LengthBound(room, before);
    PayloadFits(room, log);
    HeardBlocksSized(cfg, inp, |log|);
    PayloadSize(log);
    PayloadSize(before);
  }

  /** Two runs of the same input are the same run. */
  lemma {:induction false} RunIsUnique(cfg: Config, inp: seq<Reading>, room: int, a: Log, b: Log)
    requires IsRun(room, a) && a == HearRounds(cfg, inp, |a|).log
    requires IsRun(room, b) && b == HearRounds(cfg, inp, |b|).log
    ensures a == b
  {
    if |a| < |b| {
      HearPrefix(cfg, inp, |a|, |b|);
    } else if |b| < |a| {
      HearPrefix(cfg, inp, |b|, |a|);
    }
  }

  lemma {:induction false} HearPrefix(cfg: Config, inp: seq<Reading>, k: nat, n: nat)
    requires k <= n
    ensures HearRounds(cfg, inp, n).log[..k] == HearRounds(cfg, inp, k).log
    decreases n
  {
    hide Hear, Accepted;
    if k < n {
      HearPrefix(cfg, inp, k, n - 1);
      var h := HearRounds(cfg, inp, n).log;
      assert h[..n - 1] == HearRounds(cfg, inp, n - 1).log;
      assert h[..k] == h[..n - 1][..k];
    } else {
      var h := HearRounds(cfg, inp, n).log;
      assert h[..n] == h;
    }
  }

  // ------------------------------------------------- what the events of a history mean

  /** The start byte that announces blocks of a size. */
  function StartByte(size: nat): byte { if size == 128 then SOH else STX }

  /** The next two readings are a start byte the receiver heeds and the expected block, intact. */
  ghost predicate BringsBlock(cfg: Config, accepted: nat, inp: seq<Reading>, data: seq<byte>) {
    IsBlockSize(|data|) && (|data| == 1024 ==> cfg.TakesLongBlocks()) &&
    |inp| >= 2 && inp[0] == [StartByte(|data|)] &&
    inp[1] == Body(cfg.ReceiverUsesCrc(|data|), BlockNo(accepted + 1), data)
  }

  /**
   The k-th round accepts data exactly when the line brings that data in a block with the number
   after the last accepted one (modulo 256), its complement and a matching check.
   */
  lemma {:induction false} AcceptedIffGenuine(cfg: Config, inp: seq<Reading>, n: nat, k: nat, data: seq<byte>)
    requires k < n
    ensures var log := HearRounds(cfg, inp, n).log;
            log[k] == Block(data) <==>
            BringsBlock(cfg, Accepted(log[..k]), HearRounds(cfg, inp, k).rest, data)
  {
    HearPrefix(cfg, inp, k, n);
    HearPrefix(cfg, inp, k + 1, n);
    var log := HearRounds(cfg, inp, n).log;
    assert log[k] == log[..k + 1][k];
    HearBlockIff(cfg, Accepted(log[..k]), HearRounds(cfg, inp, k).rest, data);
  }

  lemma HearBlockIff(cfg: Config, accepted: nat, inp: seq<Reading>, data: seq<byte>)
    ensures Hear(cfg, accepted, inp).event == Block(data) <==> BringsBlock(cfg, accepted, inp, data)
  {
    hide Sum, CrcBytes, CheckBytes;
    if |inp| >= 2 && |inp[0]| == 1 {
      assert inp[0] == [inp[0][0]];
      assert inp[1..][0] == inp[1];
      if IsBlockSize(|data|) {
        DataOfBody(cfg.ReceiverUsesCrc(|data|), BlockNo(accepted + 1), data);
      }
    }
  }

  /** Ten failures: none of the last ten rounds made progress. */
  lemma {:induction false} FailuresMean(log: Log, k: nat)
    ensures Failures(log) >= k <==>
            |log| >= k && forall i :: |log| - k <= i < |log| ==> !log[i].Block? && !log[i].End?
    decreases k
  {
    if k == 0 || log == [] {
    } else {
      FailuresMean(Front(log), k - 1);
    }
  }

  /** Keeps the count of CAN bytes going. */
  predicate KeepsCancels(e: Event) { e.Cancel? || e.Silence? || e.Noise? }

  /** A round cancelled before with no start byte or end of transmission since. */
  ghost predicate CancelledBefore(log: Log, i: nat) {
    i < |log| && log[i].Cancel? && forall j :: i < j < |log| ==> KeepsCancels(log[j])
  }

  lemma {:induction false} CancelsMean(log: Log)
    ensures Cancels(log) >= 1 <==> exists i: nat :: CancelledBefore(log, i)
    decreases |log|
  {
    if log == [] {
    } else {
      var before, e := Front(log), Last(log);
      CancelsMean(before);
      if Cancels(log) >= 1 {
        if e.Cancel? {
          assert CancelledBefore(log, |log| - 1);
        } else {
          var i: nat :| CancelledBefore(before, i);
          assert CancelledBefore(log, i);
        }
      }
      if exists i: nat :: CancelledBefore(log, i) {
        var i: nat :| CancelledBefore(log, i);
        if i < |log| - 1 {
          assert KeepsCancels(log[|log| - 1]);
          assert CancelledBefore(before, i);
        }
      }
    }
  }

  /**
   The outcome of every run: -1 on a second CAN without a start byte or end of transmission since
   the first, on ten rounds without progress, or on a block that does not fit; otherwise the run
   ends with the end of transmission and the result counts the bytes stored.
   */
  lemma Outcome(room: int, log: Log)
    requires IsRun(room, log)
    ensures Result(room, log) == -1 <==>
            || (Last(log).Cancel? && exists i: nat :: CancelledBefore(Front(log), i))
            || (|log| >= 10 && forall i :: |log| - 10 <= i < |log| ==> !log[i].Block? && !log[i].End?)
            || Overflows(room, log)
    ensures Result(room, log) != -1 ==> Last(log).End? && Result(room, log) == |Payload(log)| == |Stored(room, log)|
  {
    CancelsMean(Front(log));
    FailuresMean(log, 10);
  }
}
