/** Building block 0 and the end-of-batch block, src/lmodem_tx.c. */
module BlockZeroTx {
  import opened Bytes
  import opened Crc16
  import opened Detection
  import opened Protocol
  import opened Modem
  import opened Numerals
  import opened Sender
  import opened BlockZero

  /** Block 0 with nothing in it, for the end of the batch. */
  function NoFile(): (data: seq<byte>)
    ensures |data| == 128
  {
    Repeat(0, 128)
  }

  const END_OF_BATCH: seq<byte> := Frame(true, 0, NoFile())

  /** The cleared line buffer with the number of block 0 and its complement, as far as n bytes. */
  function Unnamed(n: nat): (s: seq<byte>)
    ensures |s| == n
  {
    seq(n, i => if i == 2 then 255 else 0)
  }

  method ClearBuffer(m: Modem)
    requires m.Valid()
    modifies m.blk
    ensures m.Valid() && forall i :: 0 <= i < m.blk.Length ==> m.blk[i] == 0
  {
    hide IsTable;
    forall i | 0 <= i < m.blk.Length {
      m.blk[i] := 0;
    }
  }

  /** What snprintf would print of the valid fields: their number picks the format. */
  method FormatMetaData(fd: FileData) returns (nbMetaDataTocpy: nat, text: seq<byte>)
    requires WellFormed(fd)
    ensures nbMetaDataTocpy == FieldCount(fd) && text == MetaText(fd)
  {
    hide PrintSigned, Digits;
    nbMetaDataTocpy := 0;
    if fd.sizeValid { nbMetaDataTocpy := nbMetaDataTocpy + 1; }
    if fd.dateValid { nbMetaDataTocpy := nbMetaDataTocpy + 1; }
    if fd.permissionValid { nbMetaDataTocpy := nbMetaDataTocpy + 1; }
    if fd.serialValid { nbMetaDataTocpy := nbMetaDataTocpy + 1; }
    var size, date := PrintSigned(fd.size), Digits(fd.modifDate, 8);
    var permission, serial := Digits(fd.permission % 0x8000 + 0x8000, 8), Digits(fd.serial, 8);
    text := [];
    if nbMetaDataTocpy == 1 {
      text := size;
    } else if nbMetaDataTocpy == 2 {
      text := size + [SPACE] + date;
    } else if nbMetaDataTocpy == 3 {
      text := size + [SPACE] + date + [SPACE] + permission;
    } else if nbMetaDataTocpy == 4 {
      text := size + [SPACE] + date + [SPACE] + permission + [SPACE] + serial;
    }
    JoinUpToFour(size, date, permission, serial, nbMetaDataTocpy);
  }

  lemma JoinUpToFour(a: seq<byte>, b: seq<byte>, c: seq<byte>, d: seq<byte>, n: nat)
    requires n <= 4
    ensures Join([a, b, c, d][..n]) ==
            if n == 0 then [] else if n == 1 then a else if n == 2 then a + [SPACE] + b
            else if n == 3 then a + [SPACE] + b + [SPACE] + c
            else a + [SPACE] + b + [SPACE] + c + [SPACE] + d
  {
    var s := [a, b, c, d][..n];
    assert n == 1 ==> s == [a];
    if n >= 2 {
      assert s[1..] == [b, c, d][..n - 1];
      var t := [b, c, d][..n - 1];
      assert n == 2 ==> t == [b];
      if n >= 3 {
        assert t[1..] == [c, d][..n - 2];
        var u := [c, d][..n - 2];
        assert n == 3 ==> u == [c];
        if n == 4 {
          assert u[1..] == [d];
          assert Join(u) == c + [SPACE] + d;
        }
        assert Join(t) == b + [SPACE] + Join(u);
        assert Join(s) == a + [SPACE] + (b + [SPACE] + Join(u));
      }
    }
  }

  /** The text as snprintf leaves it in a cleared buffer: cut to the room, and ended by a NUL. */
  method PutText(m: Modem, start: nat, text: seq<byte>, limit: nat) returns (nbWritten: nat)
    requires m.Valid() && start + limit <= m.blk.Length
    requires forall i :: start <= i < m.blk.Length ==> m.blk[i] == 0
    modifies m.blk
    ensures m.Valid() && nbWritten == |text|
    ensures m.blk[..start] == old(m.blk[..start])
    ensures m.blk[start..] == Clipped(text, limit) + Repeat(0, m.blk.Length - start - |Clipped(text, limit)|)
  {
    hide IsTable;
    nbWritten := |text|;
    if limit > 0 {
      var n := if |text| < limit then |text| else limit - 1;
      forall i | 0 <= i < n {
        m.blk[start + i] := text[i];
      }
      m.blk[start + n] := 0;
    }
  }

  /** The name from byte 3 on as far as it goes, NULs behind it, and its length as strlen finds it. */
  method PutName(m: Modem, name: seq<byte>) returns (sizeFilename: nat)
    requires m.Valid() && 3 <= m.blk.Length
    requires forall i :: 0 <= i < |name| ==> name[i] != 0
    modifies m.blk
    ensures m.Valid() && sizeFilename == (if |name| <= m.blk.Length - 3 then |name| else m.blk.Length - 3)
    ensures m.blk[..3] == old(m.blk[..3]) && m.blk[3..3 + sizeFilename] == name[..sizeFilename]
    ensures forall i :: 3 + sizeFilename <= i < m.blk.Length ==> m.blk[i] == 0
  {
    hide IsTable;
    var maxTocopy := m.blk.Length - 3;
    forall i | 0 <= i < maxTocopy {
      m.blk[3 + i] := if i < |name| then name[i] else 0;
    }
    sizeFilename := 0;
    while sizeFilename < maxTocopy && m.blk[3 + sizeFilename] != 0
      invariant 0 <= sizeFilename <= maxTocopy && sizeFilename <= |name|
      decreases maxTocopy - sizeFilename
    {
      sizeFilename := sizeFilename + 1;
    }
  }

  /** The check bytes of a block 0, its start byte, and off it goes. */
  method SendBlock0(m: Modem, effectiveBlksize: nat, ghost data: seq<byte>)
    requires m.Valid() && IsBlockSize(effectiveBlksize) && 3 + effectiveBlksize + 2 <= m.blk.Length
    requires |data| == effectiveBlksize && m.blk[3..3 + effectiveBlksize] == data
    requires m.blk[1] == 0 && m.blk[2] == 255
    modifies m.blk, m`blkSize, m`sent
    ensures m.Valid() && Kept(m) == Frame(true, 0, data) && m.sent == old(m.sent) + [Kept(m)]
  {
    hide IsTable, Crc, CrcBytes, CheckBytes;
    m.blk[0] := if effectiveBlksize == 128 then SOH else STX;
    ghost var unchecked := m.blk[..3 + effectiveBlksize];
    assert unchecked[3..] == data;
    FillCheck(m, effectiveBlksize, true);
    m.blkSize := 1 + 2 + effectiveBlksize + 2;
    FrameInParts(m.blk[..m.blkSize], unchecked, data, true, 0);
    m.PutChar(m.blk[..m.blkSize]);
  }

  /** Name and fields behind a cleared header; the smallest block that takes them. */
  method FillBlock0(m: Modem) returns (effectiveBlksize: nat)
    requires m.Valid() && 1029 <= m.blk.Length && WellFormed(m.fileData)
    requires FieldsHaveRoom(m.fileData, m.blk.Length - 3) && m.blk[1] == 0 && m.blk[2] == 255
    modifies m.blk
    ensures m.Valid() && effectiveBlksize == SizeOfBlock0(m.fileData, m.blk.Length - 3)
    ensures m.blk[3..] == Laid(m.fileData, m.blk.Length - 3) && m.blk[1] == 0 && m.blk[2] == 255
  {
    hide IsTable, WellFormed, MetaText, FieldCount, Clipped;
    ghost var fd, head, n := m.fileData, m.blk[..3], m.blk.Length - 3;
    NameHasNoNul(fd);
    var sizeFilename := PutName(m, m.fileData.filename);
    ghost var named := m.blk[..];
    assert named[..3] == head;
    var nbWritten := 0;
    var nbMetaDataTocpy, text := FormatMetaData(m.fileData);
    if nbMetaDataTocpy > 0 {
      var start := 3 + sizeFilename + 1;
      nbWritten := PutText(m, start, text, m.blk.Length - 3 - start);
      LaidInBuffer(m.blk[..], named, fd, n);
    } else {
      NoFieldsNoText(fd);
      assert m.blk[3..] == Laid(fd, n);
    }
    var max_size := 3 + sizeFilename + 1 + nbWritten + 1;
    effectiveBlksize := if max_size < 128 then 128 else 1024;
    assert m.blk[..3] == head && head[1] == m.blk[1] && head[2] == m.blk[2];
  }

  /** Fields behind the name and its terminator. */
  lemma LaidInBuffer(buf: seq<byte>, named: seq<byte>, fd: FileData, n: nat)
    requires WellFormed(fd) && FieldsHaveRoom(fd, n) && FieldCount(fd) > 0
    requires |buf| == |named| == n + 3 && named[3..3 + |fd.filename|] == fd.filename && named[3 + |fd.filename|] == 0
    requires var start, text := |fd.filename| + 4, Clipped(MetaText(fd), n - |fd.filename| - 4);
             buf[..start] == named[..start] && buf[start..] == text + Repeat(0, |buf| - start - |text|)
    ensures buf[3..] == Laid(fd, n) && buf[..3] == named[..3]
  {
    hide WellFormed, MetaText, FieldCount, Clipped;
    var k := |fd.filename|;
    assert buf[..k + 4][3..3 + k] == buf[3..3 + k] && named[..k + 4][3..3 + k] == named[3..3 + k];
    assert buf[..k + 4][k + 3] == buf[k + 3] && named[..k + 4][k + 3] == named[k + 3];
    var text := Clipped(MetaText(fd), n - k - 4);
    assert buf[3..] == buf[3..3 + k] + [buf[k + 3]] + buf[k + 4..];
    assert Laid(fd, n) == fd.filename + [0] + text + Repeat(0, n - k - 1 - |text|);
    assert fd.filename + [0] + text + Repeat(0, n - k - 1 - |text|) ==
           fd.filename + [0] + (text + Repeat(0, n - k - 1 - |text|));
    assert buf[..3] == buf[..k + 4][..3] && named[..3] == named[..k + 4][..3];
  }

  /** lymodem_build_and_send_block0: nothing is sent without a name. */
  method BuildAndSendBlock0(m: Modem) returns (ok: bool)
    requires m.Valid() && 1029 <= m.blk.Length && WellFormed(m.fileData)
    requires m.fileData.filenameValid ==> FieldsHaveRoom(m.fileData, m.blk.Length - 3)
    modifies m.blk, m`blkSize, m`sent
    ensures m.Valid() && ok == m.fileData.filenameValid
    ensures ok ==> Kept(m) == Frame(true, 0, Block0Sent(m.fileData, m.blk.Length - 3))
    ensures ok ==> m.sent == old(m.sent) + [Kept(m)]
    ensures !ok ==> m.sent == old(m.sent) && m.blkSize == old(m.blkSize) && Kept(m) == Unnamed(m.blkSize)
  {
    hide IsTable, WellFormed, MetaText, Frame, Laid, FieldsHaveRoom;
    ok := false;
    ClearBuffer(m);
    m.blk[1] := 0;
    m.blk[2] := 255;
    assert Kept(m) == Unnamed(m.blkSize);
    if m.fileData.filenameValid {
      var effectiveBlksize := FillBlock0(m);
      ok := true;
      assert m.blk[3..3 + effectiveBlksize] == m.blk[3..][..effectiveBlksize];
      SendBlock0(m, effectiveBlksize, Block0Sent(m.fileData, m.blk.Length - 3));
    }
  }

  lemma NameHasNoNul(fd: FileData)
    requires WellFormed(fd)
    ensures forall i :: 0 <= i < |fd.filename| ==> fd.filename[i] != 0
  {
  }

  /** lymodem_send_end_of_bach. */
  method SendEndOfBatch(m: Modem)
    requires m.Valid() && 133 <= m.blk.Length
    modifies m.blk, m`blkSize, m`sent
    ensures m.Valid() && Kept(m) == END_OF_BATCH && m.sent == old(m.sent) + [END_OF_BATCH]
  {
    hide IsTable, Frame;
    ClearBuffer(m);
    m.blk[1] := 0;
    m.blk[2] := 255;
    assert m.blk[3..3 + 128] == NoFile();
    SendBlock0(m, 128, NoFile());
  }

  /** The end of the batch in bytes: the header, and NULs up to and with the check bytes. */
  lemma EndOfBatchInBytes()
    ensures |END_OF_BATCH| == 133 && END_OF_BATCH[..3] == [0x01, 0x00, 0xff]
    ensures forall i :: 3 <= i < 133 ==> END_OF_BATCH[i] == 0x00
  {
    hide CrcBytes, Accepts;
    var nuls: seq<byte> := Repeat(0, 130);
    NulsAccepted(nuls);
    NulsCheck(nuls);
    assert nuls[..128] == NoFile();
    assert CheckBytes(true, NoFile()) == nuls[128..];
  }

  lemma NulsCheck(code: seq<byte>)
    requires |code| >= 2 && Accepts(code)
    ensures CrcBytes(code[..|code| - 2]) == code[|code| - 2..]
  {
  }
}
