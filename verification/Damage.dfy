/**
 The damage the checks notice, on the line: a frame spoilt this way is one of the damaged copies that
 sender and receiver recover from.
 */
module Damage {
  import opened Bytes
  import opened Detection
  import opened Protocol
  import opened Modem
  import opened Link
  import opened Faults
  import RL = ReceiverLog
  import RR = ReceiverRuns

  /** A block as it is read: the start byte, then number, complement, data and check bytes. */
  function Arrives(size: nat, no: byte, complement: byte, code: seq<byte>): seq<Reading> {
    [[RR.StartByte(size)], [no, complement] + code]
  }

  /** The receiver takes blocks of this size, with this number of check bytes. */
  predicate Takes(cfg: Config, size: nat, check: nat) {
    IsBlockSize(size) && (size == 1024 ==> cfg.TakesLongBlocks()) && check == if cfg.ReceiverUsesCrc(size) then 2 else 1
  }

  /** The check bytes behind the data are those of the data. */
  predicate Checks(crc: bool, size: nat, code: seq<byte>)
    requires size <= |code|
  {
    code[size..] == CheckBytes(crc, code[..size])
  }

  /** A block with the expected number is accepted exactly when its check is right, and is no duplicate. */
  lemma ExpectedBlock(cfg: Config, accepted: nat, size: nat, code: seq<byte>, rest: seq<Reading>)
    requires |code| >= size && Takes(cfg, size, |code| - size)
    ensures var no := BlockNo(accepted + 1);
            RL.Hear(cfg, accepted, Arrives(size, no, Complement(no), code) + rest) ==
            RL.Heard(if Checks(cfg.ReceiverUsesCrc(size), size, code) then RL.Block(code[..size]) else RL.Damaged, rest)
  {
    hide CheckBytes, BlockNo;
    var no, crc := BlockNo(accepted + 1), cfg.ReceiverUsesCrc(size);
    var body := [no, Complement(no)] + code;
    var inp := Arrives(size, no, Complement(no), code) + rest;
    assert inp[0] == [RR.StartByte(size)] && inp[1..] == [body] + rest && inp[1..][0] == body && inp[1..][1..] == rest;
    assert DataOf(body, size) == code[..size];
    assert code == code[..size] + code[size..];
    var whole := Body(crc, no, code[..size]);
    assert whole[2..][size..] == CheckBytes(crc, code[..size]) && body[2..] == code;
    NumbersDiffer(accepted, accepted + 1);
  }

  /** The previous block is acknowledged again without a look at its check: any damage to its data passes. */
  lemma DuplicateUnchecked(cfg: Config, accepted: nat, size: nat, code: seq<byte>)
    requires |code| >= size && Takes(cfg, size, |code| - size)
    ensures var no := BlockNo(accepted);
            IsRound(cfg, accepted, Arrives(size, no, Complement(no), code), RL.Duplicate)
  {
    hide CheckBytes;
    var no := BlockNo(accepted);
    var reading, body := Arrives(size, no, Complement(no), code), [no, Complement(no)] + code;
    var wanted := Body(cfg.ReceiverUsesCrc(size), BlockNo(accepted + 1), DataOf(body, size));
    NumbersDiffer(accepted, accepted + 1);
    assert wanted[0] == BlockNo(accepted + 1) != no == body[0];
    forall rest ensures RL.Hear(cfg, accepted, reading + rest) == RL.Heard(RL.Duplicate, rest) {
      var inp := reading + rest;
      assert inp[0] == [RR.StartByte(size)] && inp[1..] == [body] + rest;
      assert inp[1..][0] == body && inp[1..][1..] == rest;
    }
  }

  /** A number without its complement is neither the next block nor a duplicate, whatever follows. */
  lemma SpoiltNumber(cfg: Config, accepted: nat, size: nat, no: byte, complement: byte, code: seq<byte>)
    requires |code| >= size && Takes(cfg, size, |code| - size) && complement != Complement(no)
    ensures IsDamaged(cfg, accepted, Copy(Arrives(size, no, complement, code), RL.Damaged))
  {
    hide CheckBytes;
    var reading, body := Arrives(size, no, complement, code), [no, complement] + code;
    var wanted := Body(cfg.ReceiverUsesCrc(size), BlockNo(accepted + 1), DataOf(body, size));
    assert wanted[1] == Complement(wanted[0]) && body[0] == no && body[1] == complement;
    forall rest ensures RL.Hear(cfg, accepted, reading + rest) == RL.Heard(RL.Damaged, rest) {
      var inp := reading + rest;
      assert inp[0] == [RR.StartByte(size)] && inp[1..] == [body] + rest;
      assert inp[1..][0] == body && inp[1..][1..] == rest;
    }
  }

  /** An odd number of bits, up to sixteen bits in a row, or any two bits. */
  ghost predicate CrcNotices(sent: seq<byte>, received: seq<byte>)
    requires |sent| == |received|
  {
    var e := Flips(sent, received);
    Ones(e) % 2 == 1 ||
    (sent != received && exists a: nat, n: nat :: n <= 16 && IsBurst(e, a, n)) ||
    (exists i: nat, j: nat :: IsPair(e, i, j))
  }

  /** The data or the check byte of a checksum block, changed in one byte. */
  predicate ChecksumNotices(sent: seq<byte>, received: seq<byte>) {
    |sent| == |received| && exists i :: 0 <= i < |sent| && received == sent[i := received[i]] != sent
  }

  lemma CrcRejects(data: seq<byte>, code: seq<byte>)
    requires IsBlockSize(|data|) && |code| == |data| + 2 && CrcNotices(data + CrcBytes(data), code)
    ensures !Checks(true, |data|, code)
  {
    hide CrcBytes, Flips, Ones, IsBurst, IsPair;
    var sent := data + CrcBytes(data);
    assert sent[..|data|] == data && sent[|data|..] == CrcBytes(data);
    var e := Flips(sent, code);
    if Ones(e) % 2 == 1 {
      OddDamageIsNoticed(sent, code);
    } else if exists i: nat, j: nat :: IsPair(e, i, j) {
      var i: nat, j: nat :| IsPair(e, i, j);
      PairIsNoticed(sent, code, i, j);
    } else {
      var a: nat, n: nat :| n <= 16 && IsBurst(e, a, n);
      BurstIsNoticed(sent, code, a, n);
    }
  }

  lemma ChecksumRejects(data: seq<byte>, code: seq<byte>)
    requires |code| == |data| + 1 && ChecksumNotices(data + [Checksum(data)], code)
    ensures !Checks(false, |data|, code)
  {
    hide Sum, Checksum;
    var n, sent := |data|, data + [Checksum(data)];
    var i :| 0 <= i < |sent| && code == sent[i := code[i]] != sent;
    if i < n {
      assert code[..n] == data[i := code[i]];
      assert code[n..] == [Checksum(data)];
      ChecksumNoticesOneByte(data, i, code[i]);
    } else {
      assert code[..n] == data;
      assert code[n..][0] == code[n] != Checksum(data);
    }
  }

  /** What the check in use notices. */
  ghost predicate Notices(crc: bool, data: seq<byte>, code: seq<byte>) {
    |code| == |data| + (if crc then 2 else 1) &&
    if crc then CrcNotices(data + CrcBytes(data), code) else ChecksumNotices(data + [Checksum(data)], code)
  }

  /**
   A frame with the next number whose data and check bytes suffer any of this damage is heard as a
   damaged copy: it is refused with a NAK, stores nothing, and the transfer goes on.
   */
  lemma NoticedIsDamaged(cfg: Config, accepted: nat, data: seq<byte>, code: seq<byte>)
    requires |code| >= |data| && Takes(cfg, |data|, |code| - |data|)
    requires Notices(cfg.ReceiverUsesCrc(|data|), data, code)
    ensures var no := BlockNo(accepted + 1);
            IsDamaged(cfg, accepted, Copy(Arrives(|data|, no, Complement(no), code), RL.Damaged))
  {
    hide CrcNotices, ChecksumNotices, Checks, Arrives, Checksum, CrcBytes;
    if cfg.ReceiverUsesCrc(|data|) {
      CrcRejects(data, code);
    } else {
      ChecksumRejects(data, code);
    }
    var no := BlockNo(accepted + 1);
    forall rest
      ensures RL.Hear(cfg, accepted, Arrives(|data|, no, Complement(no), code) + rest) == RL.Heard(RL.Damaged, rest)
    {
      ExpectedBlock(cfg, accepted, |data|, code, rest);
    }
  }
}
