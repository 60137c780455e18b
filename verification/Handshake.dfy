/** The waits of the YMODEM handshakes, src/lmodem_tx.c. */
module Handshake {
  import opened Bytes
  import opened Protocol
  import opened Modem
  import opened Sender

  // --------------------------------------------------------------- waiting for a byte

  datatype Caught = Caught(found: bool, b: byte, rest: seq<Reading>)

  /** The first byte within so many attempts to read. */
  function Catch(inp: seq<Reading>, tries: nat): (c: Caught)
    ensures |c.rest| <= |inp| && (tries > 0 && inp != [] ==> |c.rest| < |inp|)
  {
    if tries == 0 then Caught(false, 0, inp)
    else if inp == [] then Caught(false, 0, [])
    else if |inp[0]| == 1 then Caught(true, inp[0][0], inp[1..])
    else Catch(inp[1..], tries - 1)
  }

  /** lmodem_wait_reception, and the same loop at the head of lxmodem_emit. */
  method WaitReception(m: Modem) returns (found: bool, b: byte)
    modifies m`inp, m`readCount
    ensures Caught(found, b, m.inp) == Catch(old(m.inp), 10)
  {
    found, b := false, 0;
    var timeout := 0;
    while !found && timeout < 10
      invariant 0 <= timeout <= 10
      invariant found ==> Catch(old(m.inp), 10) == Caught(true, b, m.inp)
      invariant !found ==> Catch(old(m.inp), 10) == Catch(m.inp, 10 - timeout) && b == 0
      decreases !found, 10 - timeout
    {
      var c;
      found, c := m.GetByte();
      if found {
        b := c;
      }
      timeout := timeout + 1;
    }
  }

  datatype Awaited = Awaited(ok: bool, rest: seq<Reading>)

  /** A given byte within so many attempts to read; other bytes are dropped. */
  function Await(inp: seq<Reading>, c: byte, tries: nat): Awaited {
    if tries == 0 then Awaited(false, inp)
    else if inp == [] then Awaited(false, [])
    else if inp[0] == [c] then Awaited(true, inp[1..])
    else Await(inp[1..], c, tries - 1)
  }

  /** lmodem_wait_reception_of */
  method WaitReceptionOf(m: Modem, cntrlChar: byte) returns (ok: bool)
    modifies m`inp, m`readCount
    ensures Awaited(ok, m.inp) == Await(old(m.inp), cntrlChar, 10)
  {
    ok := false;
    var timeout := 0;
    while !ok && timeout < 10
      invariant 0 <= timeout <= 10
      invariant ok ==> Await(old(m.inp), cntrlChar, 10) == Awaited(true, m.inp)
      invariant !ok ==> Await(old(m.inp), cntrlChar, 10) == Await(m.inp, cntrlChar, 10 - timeout)
      decreases !ok, 10 - timeout
    {
      ghost var inp := m.inp;
      var received, b := m.GetByte();
      if received && b == cntrlChar {
        assert inp[0] == [cntrlChar];
        ok := true;
      }
      timeout := timeout + 1;
    }
  }

  // ------------------------------------------------------------ settling a handshake block

  /** How the wait for the answer to a handshake block ends; on a silent line it may not end. */
  datatype Outcome = Acked | Cancelled | GivenUp | Blocked

  datatype Settled = Settled(outcome: Outcome, resends: nat, last: byte, rest: seq<Reading>)

  /** Every NAK, and every silence after a NAK, is answered by the kept block; `last` is the last byte heard. */
  function Settle(inp: seq<Reading>, last: byte, retry: nat): Settled
    decreases |inp|, MAX_RETRY - retry
  {
    if retry >= MAX_RETRY then Settled(GivenUp, 0, last, inp)
    else
      var w := Catch(inp, 10);
      var c := if w.found then w.b else last;
      if c == ACK then Settled(Acked, 0, c, w.rest)
      else if c == CAN then Settled(Cancelled, 0, c, w.rest)
      else if c == NAK then
        var s := Settle(w.rest, c, retry + 1);
        s.(resends := s.resends + 1)
      else if inp == [] then Settled(Blocked, 0, c, [])
      else Settle(w.rest, c, retry)
  }

  // ----------------------------------------------------------------- the waits, in bytes

  /** A byte is caught behind fewer failed attempts than there are tries, and no byte behind as many. */
  lemma {:induction false} CatchInBytes(quiet: seq<Reading>, b: byte, rest: seq<Reading>, tries: nat)
    requires Quiet(quiet)
    ensures |quiet| < tries ==> Catch(quiet + ([[b]] + rest), tries) == Caught(true, b, rest)
    ensures |quiet| == tries ==> Catch(quiet + rest, tries) == Caught(false, 0, rest)
    decreases |quiet|
  {
    var inp, none := quiet + ([[b]] + rest), quiet + rest;
    if quiet == [] {
      assert inp[0] == [b] && inp[1..] == rest && none == rest;
    } else {
      assert inp[0] == quiet[0] && inp[1..] == quiet[1..] + ([[b]] + rest);
      assert none[0] == quiet[0] && none[1..] == quiet[1..] + rest;
      if tries > 0 { CatchInBytes(quiet[1..], b, rest, tries - 1); }
    }
  }

  /** A given byte is found behind fewer other readings than there are tries, and not behind as many. */
  lemma {:induction false} AwaitInBytes(others: seq<Reading>, c: byte, rest: seq<Reading>, tries: nat)
    requires forall i :: 0 <= i < |others| ==> others[i] != [c]
    ensures |others| < tries ==> Await(others + ([[c]] + rest), c, tries) == Awaited(true, rest)
    ensures |others| == tries ==> Await(others + rest, c, tries) == Awaited(false, rest)
    decreases |others|
  {
    var inp, none := others + ([[c]] + rest), others + rest;
    if others == [] {
      assert inp[0] == [c] && inp[1..] == rest && none == rest;
    } else {
      assert inp[0] == others[0] && inp[1..] == others[1..] + ([[c]] + rest);
      assert none[0] == others[0] && none[1..] == others[1..] + rest;
      if tries > 0 { AwaitInBytes(others[1..], c, rest, tries - 1); }
    }
  }

  lemma CatchNext(b: byte, rest: seq<Reading>)
    ensures Catch([[b]] + rest, 10) == Caught(true, b, rest)
  {
    CatchInBytes([], b, rest, 10);
    assert [] + ([[b]] + rest) == [[b]] + rest;
  }

  /** So many NAKs. */
  function Naks(f: nat): seq<Reading> { Repeat([0x15], f) }

  lemma OneNakLess(f: nat, rest: seq<Reading>)
    requires f > 0
    ensures Naks(f) + rest == [[0x15]] + (Naks(f - 1) + rest)
  {
  }

  /** Each NAK is answered by one copy of the block, until an ACK or a CAN ends the wait. */
  lemma {:induction false} NaksThenAnswer(f: nat, c: byte, rest: seq<Reading>, last: byte, retry: nat)
    requires f + retry <= 9 && (c == 0x06 || c == 0x18)
    ensures Settle(Naks(f) + ([[c]] + rest), last, retry) == Settled(if c == 0x06 then Acked else Cancelled, f, c, rest)
    decreases f
  {
    hide Catch, Naks;
    var inp := [[c]] + rest;
    if f == 0 {
      NoNaks(inp);
      CatchNext(c, rest);
    } else {
      OneNakLess(f, inp);
      CatchNext(0x15, Naks(f - 1) + inp);
      NaksThenAnswer(f - 1, c, rest, 0x15, retry + 1);
    }
  }

  lemma NoNaks(rest: seq<Reading>)
    ensures Naks(0) + rest == rest
  {
  }

  /** The tenth NAK gives up, after ten copies. */
  lemma {:induction false} TenNaksGiveUp(f: nat, rest: seq<Reading>, last: byte, retry: nat)
    requires f + retry == 10 && f > 0
    ensures Settle(Naks(f) + rest, last, retry) == Settled(GivenUp, f, 0x15, rest)
    decreases f
  {
    hide Catch, Naks;
    OneNakLess(f, rest);
    CatchNext(0x15, Naks(f - 1) + rest);
    if f == 1 {
      NoNaks(rest);
    } else {
      TenNaksGiveUp(f - 1, rest, 0x15, retry + 1);
    }
  }

  /** A byte that is no answer is dropped, with whatever was heard before it. */
  lemma NoiseIsDropped(b: byte, rest: seq<Reading>, last: byte, retry: nat)
    requires retry < 10 && b !in [0x06, 0x15, 0x18]
    ensures Settle([[b]] + rest, last, retry) == Settle(rest, b, retry)
  {
    hide Catch;
    CatchNext(b, rest);
  }

  /** Ten failed attempts repeat the last byte heard: an ACK or a CAN ends the wait, a NAK gets one more copy. */
  lemma SilenceRepeats(inp: seq<Reading>, last: byte, retry: nat)
    requires retry < 10 && !Catch(inp, 10).found
    ensures var rest := Catch(inp, 10).rest;
            (last == 0x06 ==> Settle(inp, last, retry) == Settled(Acked, 0, 0x06, rest)) &&
            (last == 0x18 ==> Settle(inp, last, retry) == Settled(Cancelled, 0, 0x18, rest)) &&
            (last == 0x15 ==> Settle(inp, last, retry) == OneMore(Settle(rest, 0x15, retry + 1)))
  {
    hide Catch;
  }

  /** Silence for ever behind a byte that says nothing, or behind no byte at all, is a wait without end. */
  lemma SilenceBlocks(last: byte, retry: nat)
    requires retry < 10 && last !in [0x06, 0x15, 0x18]
    ensures Settle([], last, retry) == Settled(Blocked, 0, last, [])
  {
  }

  function OneMore(s: Settled): Settled { s.(resends := s.resends + 1) }

  /** At most ten copies more, whatever is heard. */
  lemma {:induction false} ResendsAreFew(inp: seq<Reading>, last: byte, retry: nat)
    ensures Settle(inp, last, retry).resends <= if retry <= MAX_RETRY then MAX_RETRY - retry else 0
    decreases |inp|, MAX_RETRY - retry
  {
    hide Catch;
    if retry >= MAX_RETRY {
    } else {
      var w := Catch(inp, 10);
      var c := if w.found then w.b else last;
      if c == NAK {
        ResendsAreFew(w.rest, c, retry + 1);
      } else if c != ACK && c != CAN && inp != [] {
        ResendsAreFew(w.rest, c, retry);
      }
    }
  }

  lemma {:induction false} AckedByAck(inp: seq<Reading>, last: byte, retry: nat)
    ensures Settle(inp, last, retry).outcome.Acked? ==> Settle(inp, last, retry).last == ACK
    decreases |inp|, MAX_RETRY - retry
  {
    hide Catch;
    if retry >= MAX_RETRY {
    } else {
      var w := Catch(inp, 10);
      var c := if w.found then w.b else last;
      if c == NAK {
        AckedByAck(w.rest, c, retry + 1);
      } else if c != ACK && c != CAN && inp != [] {
        AckedByAck(w.rest, c, retry);
      }
    }
  }

  /** A wait without end: the script is over, and the last byte that ever came in says nothing. */
  lemma {:induction false} BlockedOnNoise(inp: seq<Reading>, last: byte, retry: nat)
    ensures Settle(inp, last, retry).outcome.Blocked? ==>
              Settle(inp, last, retry).last !in [ACK, NAK, CAN] && Settle(inp, last, retry).rest == []
    decreases |inp|, MAX_RETRY - retry
  {
    hide Catch;
    if retry >= MAX_RETRY {
    } else {
      var w := Catch(inp, 10);
      var c := if w.found then w.b else last;
      if c == NAK {
        BlockedOnNoise(w.rest, c, retry + 1);
      } else if c != ACK && c != CAN && inp != [] {
        BlockedOnNoise(w.rest, c, retry);
      }
    }
  }

  method SettleHandshake(m: Modem, receivedChar: byte) returns (outcome: Outcome, last: byte)
    requires m.Valid()
    modifies m`inp, m`readCount, m`sent
    ensures var s := Settle(old(m.inp), receivedChar, 0);
            outcome == s.outcome && last == s.last && m.inp == s.rest &&
            m.sent == old(m.sent) + Repeat(Kept(m), s.resends)
  {
    hide m.Valid, Catch;
    last := receivedChar;
    outcome := GivenUp;
    var done, retry := false, 0;
    ghost var whole, kept := Settle(m.inp, last, 0), Kept(m);
    while !done && retry < MAX_RETRY
      invariant m.Valid() && 0 <= retry <= MAX_RETRY
      invariant Kept(m) == kept
      invariant m.sent == old(m.sent) + Repeat(kept, retry)
      invariant !done ==> outcome == GivenUp && whole == Resent(Settle(m.inp, last, retry), retry)
      invariant done ==> whole == Settled(outcome, retry, last, m.inp)
      decreases !done, |m.inp|, MAX_RETRY - retry
    {
      ghost var inp := m.inp;
      var exhausted := m.inp == [];
      var found, b := WaitReception(m);
      if found {
        last := b;
      }
      if last == ACK {
        outcome, done := Acked, true;
      } else if last == CAN {
        outcome, done := Cancelled, true;
      } else if last == NAK {
        ReemitPreviousBlock(m);
        OneCopyMore(kept, retry);
        retry := retry + 1;
      } else if exhausted {
        outcome, done := Blocked, true;
      }
    }
  }

  function Resent(s: Settled, n: nat): Settled { s.(resends := s.resends + n) }

  lemma OneCopyMore(item: seq<byte>, n: nat)
    ensures Repeat(item, n + 1) == Repeat(item, n) + [item]
  {
  }
}
