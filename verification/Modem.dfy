/** The modem context of include/lmodem.h, and its setters from src/lmodem_init.c. */
module Modem {
  import opened Bytes
  import opened Crc16
  import opened Detection
  import opened Protocol
  import opened RamFile

  /**
   One attempt to read: the bytes that came in before the timeout.  A request for n bytes succeeds
   on a reading of exactly n bytes; any other reading is a failure that leaves its bytes behind.
   */
  type Reading = seq<byte>

  /** lmodem_file_characteristics; the valid bits are kept apart. */
  datatype FileData = FileData(
    filenameValid: bool, sizeValid: bool, dateValid: bool, permissionValid: bool, serialValid: bool,
    filename: seq<byte>, filenameSize: nat,
    size: nat, modifDate: nat, permission: nat, serial: nat)

  const NO_FILE_DATA := FileData(false, false, false, false, false, [], 0, 0, 0, 0, 0)

  class Modem {
    var protocol: Protocol
    const opts: Options
    var withCrc: bool
    const crc16: Crc16Context
    var blk: array<byte>
    var blkSize: nat
    const ramfile: RamFile
    var fileData: FileData

    /** What getchar will come up with, one reading per call; nothing but silence afterwards. */
    var inp: seq<Reading>
    /** What putchar was given, one message per call. */
    var sent: seq<seq<byte>>
    /** The number of getchar calls. */
    ghost var readCount: nat

    ghost predicate Valid()
      reads this`blk, this`blkSize, crc16.crctab, ramfile
    {
      crc16.Valid() && crc16.polynome == 0x1021 && ramfile.Valid() && blkSize <= blk.Length &&
      blk != ramfile.buffer && blk as object != crc16.crctab as object &&
      ramfile.buffer as object != crc16.crctab as object
    }

    ghost function Cfg(): Config
      reads this`protocol, this`withCrc
    {
      Config(protocol, opts, withCrc)
    }

    /** lmodem_init, for a fresh context; buffers are given later. */
    constructor Init(opts: Options)
      ensures Valid() && this.opts == opts && inp == [] && sent == []
      ensures fresh(crc16) && fresh(crc16.crctab) && fresh(ramfile) && fresh(ramfile.buffer) && fresh(blk)
    {
      this.opts := opts;
      protocol, withCrc := Xmodem, false;
      crc16 := new Crc16Context.Init(0x1021);
      blk, blkSize := new byte[0], 0;
      var empty := new byte[0];
      ramfile := new RamFile.Init(empty, 0);
      fileData := NO_FILE_DATA;
      inp, sent, readCount := [], [], 0;
    }

    /** lmodem_set_line_buffer: withCrc is decided even when the buffer is refused. */
    method SetLineBuffer(buffer: array<byte>) returns (ok: bool)
      requires Valid() && buffer != ramfile.buffer && buffer as object != crc16.crctab as object
      modifies this`withCrc, this`blk, this`blkSize
      ensures Valid() && Cfg().LineBufferSet()
      ensures ok == (buffer.Length >= Config(Xmodem, opts, withCrc).LongestBody())
      ensures ok ==> blk == buffer && blkSize == 0
      ensures !ok ==> blk == old(blk) && blkSize == old(blkSize)
    {
      ok := false;
      var expectedSize := 0;
      match opts {
        case Checksum128 =>
          expectedSize := 2 + 128 + 1;
          withCrc := false;
        case Crc128 =>
          expectedSize := 2 + 128 + 2;
          withCrc := true;
        case Crc1k =>
          expectedSize := 2 + 1024 + 2;
          withCrc := true;
      }
      if buffer.Length >= expectedSize {
        blk, blkSize := buffer, 0;
        ok := true;
      }
    }

    /** lmodem_set_file_buffer. */
    method SetFileBuffer(buffer: array<byte>, size: nat)
      requires Valid() && size <= buffer.Length
      requires buffer != blk && buffer as object != crc16.crctab as object
      modifies ramfile
      ensures Valid() && ramfile.buffer == buffer && ramfile.maxSize == size
      ensures ramfile.readOffset == ramfile.writeOffset == 0
    {
      ramfile.buffer, ramfile.maxSize := buffer, size;
      ramfile.readOffset, ramfile.writeOffset := 0, 0;
    }

    /** The metadata setters; each marks its field as valid.  Without a name buffer a name is ignored. */
    method SetFilename(filename: seq<byte>)
      modifies this`fileData
      ensures var room := old(fileData).filenameSize;
              fileData ==
              if room == 0 then old(fileData)
              else
                var kept := if |filename| < room then filename else filename[..room - 1];
                old(fileData).(filename := CString(kept), filenameValid := true)
    {
      if fileData.filenameSize > 0 {
        var n := if |filename| < fileData.filenameSize then |filename| else fileData.filenameSize - 1;
        assert |filename| < fileData.filenameSize ==> filename[..n] == filename;
        fileData := fileData.(filename := CString(filename[..n]), filenameValid := true);
      }
    }

    method SetFilesize(size: nat)
      modifies this`fileData
      ensures fileData == old(fileData).(size := size, sizeValid := true)
    {
      fileData := fileData.(size := size, sizeValid := true);
    }

    /** getchar for a single byte. */
    method GetByte() returns (ok: bool, b: byte)
      modifies this`inp, this`readCount
      ensures ok == (old(inp) != [] && |old(inp)[0]| == 1)
      ensures ok ==> b == old(inp)[0][0]
      ensures inp == Tail(old(inp)) && readCount == old(readCount) + 1
    {
      ok, b := false, 0;
      readCount := readCount + 1;
      if inp != [] {
        if |inp[0]| == 1 {
          ok, b := true, inp[0][0];
        }
        inp := inp[1..];
      }
    }

    /** getchar for n bytes, into the line buffer. */
    method GetBlock(n: nat) returns (ok: bool)
      requires n <= blk.Length
      modifies this`inp, this`readCount, blk
      ensures ok == (old(inp) != [] && |old(inp)[0]| == n)
      ensures ok ==> blk[..n] == old(inp)[0]
      ensures blk[n..] == old(blk[n..])
      ensures inp == Tail(old(inp)) && readCount == old(readCount) + 1
    {
      ok := false;
      readCount := readCount + 1;
      if inp != [] {
        var r := inp[0];
        var k := if |r| < n then |r| else n;
        forall i | 0 <= i < k {
          blk[i] := r[i];
        }
        ok := |r| == n;
        inp := inp[1..];
      }
    }

    method PutChar(data: seq<byte>)
      modifies this`sent
      ensures sent == old(sent) + [data]
    {
      sent := sent + [data];
    }

    /** The CRC of size bytes of the line buffer, split in its two bytes. */
    method CalculCrc(offset: nat, size: nat) returns (hiCrc: byte, loCrc: byte)
      requires Valid() && offset + size <= blk.Length
      ensures [hiCrc, loCrc] == CrcBytes(blk[offset..offset + size])
    {
      var crc := crc16.DoCalcul(blk, offset, size, 0, 0);
      NoXor(Crc(blk[offset..offset + size]), crc);
      hiCrc, loCrc := HighByte(crc), LowByte(crc);
    }

    /** lxmodem_calcul_chksum over size bytes of the line buffer. */
    method CalculChksum(offset: nat, size: nat) returns (t: byte)
      requires offset + size <= blk.Length
      ensures t == Checksum(blk[offset..offset + size])
    {
      hide Sum;
      ghost var bytes := blk[offset..offset + size];
      t := 0;
      NothingSummed(bytes);
      var i := 0;
      while i < size
        invariant 0 <= i <= size
        invariant t == Sum(bytes[..i]) % 256
      {
        OneMoreSummed(bytes, i);
        assert bytes[i] == blk[offset + i];
        t := (t + blk[offset + i]) % 256;
        i := i + 1;
      }
      assert bytes[..size] == bytes;
    }
  }

  lemma NothingSummed(bytes: seq<byte>)
    ensures Sum(bytes[..0]) == 0
  {
  }

  lemma OneMoreSummed(bytes: seq<byte>, i: nat)
    requires i < |bytes|
    ensures Sum(bytes[..i + 1]) == Sum(bytes[..i]) + bytes[i]
  {
    assert bytes[..i + 1][..i] == bytes[..i];
  }

  lemma NoXor(v: bv16, w: bv16)
    requires w == v ^ 0
    ensures v == w
  {
  }

  /** None of these readings is a single byte. */
  predicate Quiet(inp: seq<Reading>) { forall i :: 0 <= i < |inp| ==> |inp[i]| != 1 }

  function Tail(inp: seq<Reading>): seq<Reading> { if inp == [] then [] else inp[1..] }

  /** The bytes of a C string: those before the first NUL. */
  function CString(s: seq<byte>): seq<byte> {
    if s == [] || s[0] == 0 then [] else [s[0]] + CString(s[1..])
  }
}
