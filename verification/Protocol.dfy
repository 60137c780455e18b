/** Constants, configurations and frames shared by the two sides of a transfer. */
module Protocol {
  import opened Bytes
  import opened Detection

  const SOH: byte := 0x01
  const STX: byte := 0x02
  const EOT: byte := 0x04
  const ACK: byte := 0x06
  const NAK: byte := 0x15
  const CAN: byte := 0x18
  const SUB: byte := 0x1a
  const CHAR_C: byte := 0x43

  const MAX_RETRY := 10

  datatype Protocol = Xmodem | Ymodem

  datatype Options = Checksum128 | Crc128 | Crc1k

  /** The context fields both loops look at; withCrc is set with the line buffer. */
  datatype Config = Config(protocol: Protocol, opts: Options, withCrc: bool) {

    /** The receiver's choice between CRC and checksum, for a block of the given size. */
    predicate ReceiverUsesCrc(size: nat) { withCrc || protocol.Ymodem? || size > 128 }

    /** The receiver takes 1024-byte blocks only in these modes. */
    predicate TakesLongBlocks() { opts.Crc1k? || protocol.Ymodem? }

    /** The sender's choice, made once per transfer. */
    predicate SenderUsesCrc() { protocol.Ymodem? || !opts.Checksum128? }

    /** The size in which the sender cuts the file. */
    function SenderBlockSize(): nat { if protocol.Ymodem? || opts.Crc1k? then 1024 else 128 }

    /** What lmodem_set_line_buffer establishes. */
    ghost predicate LineBufferSet() { withCrc == !opts.Checksum128? }

    /** The longest body the receiver may ask for. */
    function LongestBody(): nat { if TakesLongBlocks() then 1028 else if withCrc then 132 else 131 }

    /** The longest frame the sender may build. */
    function LongestFrame(): nat { if SenderBlockSize() == 1024 then 1029 else if SenderUsesCrc() then 133 else 132 }
  }

  function Repeat<T>(x: T, n: nat): (s: seq<T>)
    ensures |s| == n && forall i :: 0 <= i < n ==> s[i] == x
  {
    seq(n, _ => x)
  }

  /** Block numbers start at one and wrap from 255 to 0. */
  function BlockNo(k: nat): byte { k % 256 }

  function Complement(b: byte): byte { 255 - b }

  function Sum(data: seq<byte>): nat {
    if data == [] then 0 else Sum(data[..|data| - 1]) + data[|data| - 1]
  }

  /** The sum of the data bytes, any carry tossed. */
  function Checksum(data: seq<byte>): byte { Sum(data) % 256 }

  function CheckBytes(crc: bool, data: seq<byte>): (r: seq<byte>)
    ensures |r| == if crc then 2 else 1
  {
    if crc then CrcBytes(data) else [Checksum(data)]
  }

  /** What follows the start byte: number, complement, data, check bytes. */
  function Body(crc: bool, no: byte, data: seq<byte>): (r: seq<byte>)
    ensures |r| == 2 + |data| + if crc then 2 else 1
  {
    [no, Complement(no)] + data + CheckBytes(crc, data)
  }

  predicate IsBlockSize(size: nat) { size == 128 || size == 1024 }

  function Frame(crc: bool, no: byte, data: seq<byte>): (frame: seq<byte>)
    requires IsBlockSize(|data|)
    ensures |frame| > 1
  {
    [if |data| == 128 then SOH else STX] + Body(crc, no, data)
  }

  /** The data of a body of known size. */
  function DataOf(body: seq<byte>, size: nat): (data: seq<byte>)
    requires |body| >= 2 + size
    ensures |data| == size
  {
    body[2..2 + size]
  }

  lemma DataOfBody(crc: bool, no: byte, data: seq<byte>)
    ensures DataOf(Body(crc, no, data), |data|) == data
  {
  }

  /** Consecutive block numbers differ, whatever the wrap. */
  lemma NumbersDiffer(j: nat, k: nat)
    requires j < k < j + 256
    ensures BlockNo(j) != BlockNo(k)
  {
  }

  /** The receiver uses the sender's check, and takes blocks as long as the sender's. */
  predicate Interoperable(tx: Config, rx: Config) {
    rx.ReceiverUsesCrc(128) == tx.SenderUsesCrc() && (tx.SenderBlockSize() == 1024 ==> rx.TakesLongBlocks())
  }

  /** For every block the sender builds, the two sides pick the same check. */
  lemma SidesAgree(tx: Config, rx: Config, size: nat)
    requires Interoperable(tx, rx) && (size == 128 || (size == 1024 && tx.SenderBlockSize() == 1024))
    ensures rx.ReceiverUsesCrc(size) == tx.SenderUsesCrc()
    ensures size == 1024 ==> rx.TakesLongBlocks()
    ensures 2 + size + (if tx.SenderUsesCrc() then 2 else 1) <= rx.LongestBody()
  {
  }

  /**
   Which options go together once the receiver has its line buffer: in YMODEM all, in XMODEM equal
   ones, and a sender of 128-byte blocks with CRC with a receiver of 1024-byte blocks.
   */
  lemma OptionsThatInteroperate(tx: Config, rx: Config)
    requires tx.protocol == rx.protocol && rx.LineBufferSet()
    ensures Interoperable(tx, rx) <==>
            tx.protocol.Ymodem? || tx.opts == rx.opts || (tx.opts.Crc128? && rx.opts.Crc1k?)
  {
  }

  /** The shortest line buffer of an XMODEM mode holds the longest body, but no frame of that mode. */
  lemma FrameNeedsOneByteMore(opts: Options)
    ensures var cfg := Config(Xmodem, opts, !opts.Checksum128?); cfg.LongestFrame() == cfg.LongestBody() + 1
  {
  }

  lemma {:induction false} SumConcat(a: seq<byte>, b: seq<byte>)
    ensures Sum(a + b) == Sum(a) + Sum(b)
    decreases |b|
  {
    if b == [] {
      assert a + b == a;
    } else {
      assert (a + b)[..|a + b| - 1] == a + b[..|b| - 1];
      SumConcat(a, b[..|b| - 1]);
    }
  }

  /** The checksum notices any change of a single byte. */
  lemma ChecksumNoticesOneByte(data: seq<byte>, i: nat, b: byte)
    requires i < |data| && b != data[i]
    ensures Checksum(data[i := b]) != Checksum(data)
  {
    assert data == data[..i] + [data[i]] + data[i + 1..];
    assert data[i := b] == data[..i] + [b] + data[i + 1..];
    SumConcat(data[..i] + [data[i]], data[i + 1..]);
    SumConcat(data[..i] + [b], data[i + 1..]);
    SumConcat(data[..i], [data[i]]);
    SumConcat(data[..i], [b]);
    assert Sum([b]) == b && Sum([data[i]]) == data[i];
  }
}
