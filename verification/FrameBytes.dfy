/** What frames and modes are in bytes: section 7.2 and section 4 of the Protocol Reference, in numbers. */
module FrameBytes {
  import opened Gf2
  import opened Bytes
  import opened Crc16
  import opened Protocol
  import opened Faults
  import opened Damage
  import SL = SenderLog
  import RL = ReceiverLog

  // --------------------------------------------------------------------- the complement

  /** Counting up to b and down from 255. */
  lemma {:induction false} WordsOfPair(b: byte) returns (w: bv16, v: bv16)
    ensures w as int == b && v as int == 255 - b && w < 256 && v == 255 - w
  {
    if b == 0 {
      w := 0;
      v := WordOfValue(255);
      AllOnes(v);
    } else {
      var w', v' := WordsOfPair(b - 1);
      w := w' + 1;
      WordSuccessor(w');
      v := v' - 1;
      NextPair(w', v', w, v);
      WordSuccessor(v);
    }
  }

  lemma AllOnes(v: bv16)
    requires v as int == 255
    ensures v == 255 - 0
  {
    WordAsInt(v);
  }

  lemma NextPair(w: bv16, v: bv16, w': bv16, v': bv16)
    requires w < 255 && v == 255 - w && w' == w + 1 && v' == v - 1
    ensures w' < 256 && v' == 255 - w' && v' < 255 && v' + 1 == v
  {
  }

  lemma FlippedWord(w: bv16, v: bv16, m: bv16)
    requires w < 256 && v == 255 - w && 0 < m < 256 && m & (m - 1) == 0
    ensures (v & m != 0) == (w & m == 0)
  {
  }

  /** The ones' complement: every bit of the block number inverted. */
  lemma ComplementInvertsBits(b: byte)
    ensures forall i :: 0 <= i < 8 ==> ByteBits(Complement(b))[i] == !ByteBits(b)[i]
  {
    hide ByteBits;
    var w, v := WordsOfPair(b);
    WordAsInt(w);
    WordAsInt(v);
    forall i | 0 <= i < 8 ensures ByteBits(Complement(b))[i] == !ByteBits(b)[i] {
      InvertedBit(b, Complement(b), w, v, i);
    }
  }

  lemma InvertedBit(b: byte, c: byte, w: bv16, v: bv16, i: nat)
    requires i < 8 && w == b as bv16 && v == c as bv16 && w < 256 && v == 255 - w
    ensures ByteBits(c)[i] == !ByteBits(b)[i]
  {
    hide ByteBits, Mask;
    BitOfByte(b, w, i);
    BitOfByte(c, v, i);
    LowMask(i);
    FlippedWord(w, v, Mask(i + 8));
  }

  lemma BitOfByte(b: byte, w: bv16, i: nat)
    requires i < 8 && w == b as bv16
    ensures ByteBits(b)[i] == (w & Mask(i + 8) != 0)
  {
    hide Mask;
  }

  lemma LowMask(i: nat)
    requires i < 8
    ensures 0 < Mask(i + 8) < 256 && Mask(i + 8) & (Mask(i + 8) - 1) == 0
  {
  }

  /** No other byte has all those bits. */
  lemma OnlyComplement(b: byte, c: byte)
    requires forall i :: 0 <= i < 8 ==> ByteBits(c)[i] == !ByteBits(b)[i]
    ensures c == Complement(b)
  {
    hide ByteBits;
    ComplementInvertsBits(b);
    assert ByteBits(c) == ByteBits(Complement(b));
    ByteBitsInjective(c, Complement(b));
  }

  /** The bits in which two bytes differ. */
  function FlippedBits(a: byte, b: byte): Poly { Add(ByteBits(a), ByteBits(b)) }

  /**
   Damage to the two bytes of a header leaves a number with its complement exactly if the same bits are
   flipped in both.
   */
  lemma HeaderSurvivesIff(no: byte, a: byte, b: byte)
    ensures b == Complement(a) <==> FlippedBits(no, a) == FlippedBits(Complement(no), b)
  {
    hide ByteBits, Complement;
    ComplementInvertsBits(no);
    ComplementInvertsBits(a);
    var f, g := FlippedBits(no, a), FlippedBits(Complement(no), b);
    if b == Complement(a) {
      assert f == g;
    }
    if f == g {
      forall i | 0 <= i < 8 ensures ByteBits(b)[i] == !ByteBits(a)[i] {
        assert f[i] == g[i];
      }
      OnlyComplement(a, b);
    }
  }

  /** Damage to one of the two bytes only is such other damage. */
  lemma OneHeaderByte(no: byte, a: byte, b: byte)
    requires (a == no) != (b == Complement(no))
    ensures FlippedBits(no, a) != FlippedBits(Complement(no), b)
  {
    hide FlippedBits;
    HeaderSurvivesIff(no, a, b);
  }

  /** So damage to a single header byte, or other damage to one of the two than to the other, is refused. */
  lemma SpoiltHeader(cfg: Config, accepted: nat, size: nat, no: byte, a: byte, b: byte, code: seq<byte>)
    requires |code| >= size && Takes(cfg, size, |code| - size)
    requires FlippedBits(no, a) != FlippedBits(Complement(no), b)
    ensures IsDamaged(cfg, accepted, Copy(Arrives(size, a, b, code), RL.Damaged))
  {
    hide FlippedBits;
    HeaderSurvivesIff(no, a, b);
    SpoiltNumber(cfg, accepted, size, a, b, code);
  }

  // ----------------------------------------------------------------------- the numbers

  /** Numbers start at 1, go up by 1, and wrap from 255 to 0. */
  lemma NumbersInTurn(k: nat)
    ensures BlockNo(1) == 1 && BlockNo(k + 1) == if BlockNo(k) == 255 then 0 else BlockNo(k) + 1
  {
  }

  /** The checksum: byte after byte added up from zero, any carry tossed. */
  lemma ChecksumInTurn(data: seq<byte>, b: byte)
    ensures Checksum([]) == 0 && Checksum(data + [b]) == (Checksum(data) + b) % 256
  {
    assert (data + [b])[..|data|] == data;
  }

  // ------------------------------------------------------------------------ the frames

  /** Start byte, number, 255 less the number, the data, and the check: CRC high byte first, or checksum. */
  lemma FrameInBytes(crc: bool, no: byte, data: seq<byte>)
    requires IsBlockSize(|data|)
    ensures var frame, n := Frame(crc, no, data), |data|;
            |frame| == n + (if crc then 5 else 4) &&
            frame[..3] == [if n == 128 then 0x01 else 0x02, no, 255 - no] && frame[3..n + 3] == data &&
            (crc ==> ByteBits(frame[n + 3]) + ByteBits(frame[n + 4]) == WordBits(Crc(data))) &&
            (!crc ==> frame[n + 3] == Checksum(data))
  {
    hide Crc, WordBits, ByteBits, Checksum;
    var frame, n := Frame(crc, no, data), |data|;
    assert frame[3..n + 3] == data;
    assert frame[n + 3..] == CheckBytes(crc, data);
    if crc {
      WordInBytes(Crc(data));
      assert frame[n + 3] == CheckBytes(crc, data)[0] && frame[n + 4] == CheckBytes(crc, data)[1];
    } else {
      assert frame[n + 3] == CheckBytes(crc, data)[0];
    }
  }

  /** The items of a transfer: frames numbered from 1 on, then the single byte 0x04. */
  lemma ItemsInBytes(cfg: Config, blocks: seq<seq<byte>>, k: nat)
    requires forall i :: 0 <= i < |blocks| ==> IsBlockSize(|blocks[i]|)
    ensures var item := SL.Item(cfg, blocks, k);
            if k >= |blocks| then item == [0x04]
            else
              |item| == |blocks[k]| + (if cfg.SenderUsesCrc() then 5 else 4) && item[3..|blocks[k]| + 3] == blocks[k] &&
              item[..3] == [if |blocks[k]| == 128 then 0x01 else 0x02, (k + 1) % 256, 255 - (k + 1) % 256]
  {
    if k < |blocks| { FrameInBytes(cfg.SenderUsesCrc(), BlockNo(k + 1), blocks[k]); }
  }

  // ------------------------------------------------------------------------- the modes

  /** What each mode of the sender means. */
  lemma SenderModes(cfg: Config)
    ensures cfg.protocol.Ymodem? || cfg.opts.Crc1k? ==>
              cfg.SenderUsesCrc() && cfg.SenderBlockSize() == 1024 && cfg.LongestFrame() == 1 + 2 + 1024 + 2
    ensures cfg.protocol.Xmodem? && cfg.opts.Crc128? ==>
              cfg.SenderUsesCrc() && cfg.SenderBlockSize() == 128 && cfg.LongestFrame() == 1 + 2 + 128 + 2
    ensures cfg.protocol.Xmodem? && cfg.opts.Checksum128? ==>
              !cfg.SenderUsesCrc() && cfg.SenderBlockSize() == 128 && cfg.LongestFrame() == 1 + 2 + 128 + 1
  {
  }

  /** What each mode of the receiver means, once the line buffer is set. */
  lemma ReceiverModes(cfg: Config, size: nat)
    requires cfg.LineBufferSet()
    ensures cfg.withCrc <==> !cfg.opts.Checksum128?
    ensures cfg.ReceiverUsesCrc(size) <==> cfg.protocol.Ymodem? || !cfg.opts.Checksum128? || size > 128
    ensures cfg.TakesLongBlocks() <==> cfg.protocol.Ymodem? || cfg.opts.Crc1k?
    ensures cfg.LongestBody() == if cfg.protocol.Ymodem? || cfg.opts.Crc1k? then 2 + 1024 + 2
                                 else if cfg.opts.Crc128? then 2 + 128 + 2 else 2 + 128 + 1
  {
  }
}
