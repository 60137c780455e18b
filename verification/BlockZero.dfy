/** YMODEM block 0: the name and the numbers of a file, printed and parsed (section 5). */
module BlockZero {
  import opened Bytes
  import opened Protocol
  import opened Modem
  import opened Gf2
  import opened Detection
  import opened Numerals

  const SPACE: byte := 0x20

  /** What the C types allow: 32-bit numbers, a 16-bit permission, a name without NUL. */
  ghost predicate WellFormed(fd: FileData) {
    fd.size < TWO_32 && fd.modifDate < TWO_32 && fd.permission < 0x1_0000 && fd.serial < TWO_32 &&
    forall i :: 0 <= i < |fd.filename| ==> fd.filename[i] != 0
  }

  /** The number of valid fields besides the name. */
  function FieldCount(fd: FileData): nat {
    (if fd.sizeValid then 1 else 0) + (if fd.dateValid then 1 else 0) + (if fd.permissionValid then 1 else 0) +
    (if fd.serialValid then 1 else 0)
  }

  /** The permission is printed with bit 0x8000 set. */
  function Flagged(permission: nat): nat { permission % 0x8000 + 0x8000 }

  /** The fields in the order of the formats: size in decimal, then date, permission, serial in octal. */
  function Texts(fd: FileData): seq<seq<byte>>
    requires WellFormed(fd)
  {
    [PrintSigned(fd.size), Digits(fd.modifDate, 8), Digits(Flagged(fd.permission), 8), Digits(fd.serial, 8)]
  }

  function Join(words: seq<seq<byte>>): seq<byte> {
    if words == [] then []
    else if |words| == 1 then words[0]
    else words[0] + [SPACE] + Join(words[1..])
  }

  /** As many fields as are valid, the first ones of the format. */
  function MetaText(fd: FileData): seq<byte>
    requires WellFormed(fd)
  {
    Join(Texts(fd)[..FieldCount(fd)])
  }

  /** Name and fields leave room for the terminators in the longest block. */
  ghost predicate FitsBlock(fd: FileData)
    requires WellFormed(fd)
  {
    |fd.filename| + 1 + |MetaText(fd)| <= 1022
  }

  /** The data of block 0: name, NUL, fields, NULs to the end of the block. */
  function Block0Data(fd: FileData): (data: seq<byte>)
    requires WellFormed(fd) && FitsBlock(fd)
    ensures IsBlockSize(|data|)
  {
    var used := |fd.filename| + 1 + |MetaText(fd)|;
    var size := if used + 4 < 128 then 128 else 1024;
    fd.filename + [0] + MetaText(fd) + Repeat(0, size - used)
  }

  // ------------------------------------------------------ what the builder sends, in general

  /** What snprintf leaves of a text in a room of so many bytes, the terminator included. */
  function Clipped(text: seq<byte>, room: nat): seq<byte> {
    if |text| < room then text else if room > 0 then text[..room - 1] else []
  }

  /** The room computed for the fields is not negative, n bytes being left behind the header. */
  ghost predicate FieldsHaveRoom(fd: FileData, n: nat) {
    FieldCount(fd) == 0 || |fd.filename| + 4 <= n
  }

  /** The n bytes behind the header: the name as far as it goes, and the fields as far as they go. */
  function Laid(fd: FileData, n: nat): (s: seq<byte>)
    requires WellFormed(fd) && FieldsHaveRoom(fd, n)
    ensures |s| == n
  {
    if FieldCount(fd) == 0 then
      var name := if |fd.filename| <= n then fd.filename else fd.filename[..n];
      name + Repeat(0, n - |name|)
    else
      var text := Clipped(MetaText(fd), n - |fd.filename| - 4);
      fd.filename + [0] + text + Repeat(0, n - |fd.filename| - 1 - |text|)
  }

  /** The size of the block is picked by the whole text, clipped or not. */
  function SizeOfBlock0(fd: FileData, n: nat): (size: nat)
    requires WellFormed(fd)
    ensures IsBlockSize(size)
  {
    var name := if |fd.filename| <= n then |fd.filename| else n;
    if name + |MetaText(fd)| + 5 < 128 then 128 else 1024
  }

  /** The data of the block 0 sent from a line buffer with n bytes behind the header. */
  function Block0Sent(fd: FileData, n: nat): (data: seq<byte>)
    requires WellFormed(fd) && FieldsHaveRoom(fd, n) && n >= 1026
    ensures IsBlockSize(|data|)
  {
    Laid(fd, n)[..SizeOfBlock0(fd, n)]
  }

  /** If everything fits the block, what is sent does not depend on the line buffer. */
  lemma SentIfItFits(fd: FileData, n: nat)
    requires WellFormed(fd) && FitsBlock(fd) && n >= 1026
    ensures FieldsHaveRoom(fd, n) && Block0Sent(fd, n) == Block0Data(fd)
  {
    hide WellFormed, MetaText;
    NoFieldsNoText(fd);
    assert FieldsHaveRoom(fd, n);
    var used, size := |fd.filename| + 1 + |MetaText(fd)|, SizeOfBlock0(fd, n);
    if FieldCount(fd) == 0 {
      assert Laid(fd, n)[..size] == fd.filename + [0] + [] + Repeat(0, size - used);
    } else {
      assert Laid(fd, n)[..size] == fd.filename + [0] + MetaText(fd) + Repeat(0, size - used);
    }
  }

  lemma NoFieldsNoText(fd: FileData)
    requires WellFormed(fd)
    ensures FieldCount(fd) == 0 ==> MetaText(fd) == []
  {
  }

  // -------------------------------------------------------------------------- decoding

  function SkipNuls(s: seq<byte>): seq<byte> {
    if s != [] && s[0] == 0 then SkipNuls(s[1..]) else s
  }

  /** The length of the word s starts with: up to a blank, a NUL or the end. */
  function WordSpan(s: seq<byte>): (n: nat)
    ensures n <= |s|
  {
    if s != [] && s[0] != 0 && s[0] != SPACE then 1 + WordSpan(s[1..]) else 0
  }

  function BaseOf(k: nat): nat { if k == 0 then 10 else 8 }

  /** The k-th field gets its value, the permission without bit 0x8000. */
  function SetField(fd: FileData, k: nat, value: nat): FileData {
    if k == 0 then fd.(size := value, sizeValid := true)
    else if k == 1 then fd.(modifDate := value, dateValid := true)
    else if k == 2 then fd.(permission := value % 0x8000, permissionValid := true)
    else fd.(serial := value, serialValid := true)
  }

  datatype Decoded = Decoded(ok: bool, fd: FileData)

  function AfterWord(s: seq<byte>): seq<byte> {
    if WordSpan(s) < |s| then s[WordSpan(s) + 1..] else []
  }

  /** The fields from the k-th on: words up to a NUL, a fifth field or one that is no number. */
  function ParseFields(fd: FileData, s: seq<byte>, k: nat): Decoded
    decreases 4 - k
  {
    if k >= 4 || s == [] || s[0] == 0 then Decoded(true, fd)
    else
      var number := ReadNumber(s[..WordSpan(s)], BaseOf(k));
      var with := SetField(fd, k, number.value);
      if number.whole then ParseFields(with, AfterWord(s), k + 1) else Decoded(false, with)
  }

  /** The name as it fits the receiver's buffer. */
  function NameOf(s: seq<byte>, room: nat): seq<byte>
    requires room > 0
  {
    var name := CString(s);
    if |name| < room then name else name[..room - 1]
  }

  lemma {:induction false} CStringPrefix(s: seq<byte>)
    ensures CString(s) <= s
    ensures forall i :: 0 <= i < |CString(s)| ==> s[i] != 0
    ensures |CString(s)| < |s| ==> s[|CString(s)|] == 0
  {
    if s == [] || s[0] == 0 {
    } else {
      CStringPrefix(s[1..]);
    }
  }

  /** What the bytes from the name on decode to, with a name buffer of the given size. */
  function Decode(s: seq<byte>, room: nat): Decoded
    requires room > 0
  {
    var clean := NO_FILE_DATA.(filenameSize := room);
    if s == [] || s[0] == 0 then Decoded(false, clean)
    else
      var name := NameOf(s, room);
      CStringPrefix(s);
      ParseFields(clean.(filename := name, filenameValid := true), SkipNuls(s[|name|..]), 0)
  }

  // ------------------------------------------------------------------------ round trip

  /** The fields a sequence of words sets. */
  function SetAll(fd: FileData, words: seq<seq<byte>>, k: nat): FileData
    decreases |words|
  {
    if words == [] then fd
    else SetAll(SetField(fd, k, ReadNumber(words[0], BaseOf(k)).value), words[1..], k + 1)
  }

  lemma {:induction false} SpanOfWord(word: seq<byte>, after: seq<byte>)
    requires forall i :: 0 <= i < |word| ==> word[i] != 0 && word[i] != SPACE
    requires after != [] && (after[0] == 0 || after[0] == SPACE)
    ensures WordSpan(word + after) == |word|
  {
    if word == [] {
      assert word + after == after;
    } else {
      assert (word + after)[1..] == word[1..] + after;
      SpanOfWord(word[1..], after);
    }
  }

  lemma FirstWord(word: seq<byte>, c: byte, rest: seq<byte>)
    requires IsWord(word) && (c == 0 || c == SPACE)
    ensures var s := word + [c] + rest;
            s != [] && s[0] != 0 && s[..WordSpan(s)] == word && AfterWord(s) == rest
  {
    var s := word + [c] + rest;
    assert s == word + ([c] + rest);
    SpanOfWord(word, [c] + rest);
  }

  /** Words joined by blanks and ended by two NULs are read back one by one. */
  lemma {:induction false} ParseJoined(fd: FileData, words: seq<seq<byte>>, k: nat, rest: seq<byte>)
    requires k + |words| <= 4 && words != []
    requires forall i :: 0 <= i < |words| ==> IsWord(words[i]) && ReadNumber(words[i], BaseOf(k + i)).whole
    ensures ParseFields(fd, Join(words) + [0, 0] + rest, k) == Decoded(true, SetAll(fd, words, k))
    decreases |words|
  {
    hide SetField, ReadNumber, WordSpan, AfterWord, IsWord;
    var s := Join(words) + [0, 0] + rest;
    var with := SetField(fd, k, ReadNumber(words[0], BaseOf(k)).value);
    if |words| == 1 {
      assert s == words[0] + [0] + ([0] + rest);
      FirstWord(words[0], 0, [0] + rest);
      assert words[1..] == [];
    } else {
      var next := Join(words[1..]) + [0, 0] + rest;
      assert s == words[0] + [SPACE] + next;
      FirstWord(words[0], SPACE, next);
      forall i | 0 <= i < |words[1..]|
        ensures IsWord(words[1..][i]) && ReadNumber(words[1..][i], BaseOf(k + 1 + i)).whole
      {
        assert words[1..][i] == words[i + 1];
      }
      ParseJoined(with, words[1..], k + 1, rest);
    }
  }

  lemma {:induction false} CStringOf(name: seq<byte>, rest: seq<byte>)
    requires forall i :: 0 <= i < |name| ==> name[i] != 0
    requires rest != [] && rest[0] == 0
    ensures CString(name + rest) == name
  {
    if name == [] {
      assert name + rest == rest;
    } else {
      assert (name + rest)[1..] == name[1..] + rest;
      CStringOf(name[1..], rest);
    }
  }

  /** What a receiver gets from block 0: the fields counted, in the order of the format. */
  function Sent(fd: FileData, room: nat): FileData {
    var c := FieldCount(fd);
    FileData(true, c >= 1, c >= 2, c >= 3, c >= 4, fd.filename, room, if c >= 1 then fd.size else 0,
             if c >= 2 then fd.modifDate else 0, if c >= 3 then fd.permission % 0x8000 else 0,
             if c >= 4 then fd.serial else 0)
  }

  lemma TextsRead(fd: FileData)
    requires WellFormed(fd)
    ensures var t := Texts(fd);
            forall i :: 0 <= i < 4 ==> IsWord(t[i]) && ReadNumber(t[i], BaseOf(i)).whole
    ensures var t := Texts(fd);
            ReadNumber(t[0], 10).value == fd.size && ReadNumber(t[1], 8).value == fd.modifDate &&
            ReadNumber(t[2], 8).value == Flagged(fd.permission) && ReadNumber(t[3], 8).value == fd.serial
  {
    hide ReadNumber, IsWord, PrintSigned, Digits;
    SignedRoundTrip(fd.size);
    OctalRoundTrip(fd.modifDate);
    OctalRoundTrip(Flagged(fd.permission));
    OctalRoundTrip(fd.serial);
    PrintedAreWords(fd.size);
    PrintedAreWords(fd.modifDate);
    PrintedAreWords(Flagged(fd.permission));
    PrintedAreWords(fd.serial);
  }

  lemma SetTexts(fd: FileData, into: FileData)
    requires WellFormed(fd) && FieldCount(fd) >= 1
    requires into == NO_FILE_DATA.(filename := fd.filename, filenameValid := true, filenameSize := into.filenameSize)
    ensures SetAll(into, Texts(fd)[..FieldCount(fd)], 0) == Sent(fd, into.filenameSize)
  {
    hide ReadNumber, Digits, PrintSigned;
    TextsRead(fd);
    var t, c := Texts(fd), FieldCount(fd);
    var f1 := SetField(into, 0, fd.size);
    var f2 := SetField(f1, 1, fd.modifDate);
    var f3 := SetField(f2, 2, Flagged(fd.permission));
    var f4 := SetField(f3, 3, fd.serial);
    SetOne(into, t[..c], 0);
    if c >= 2 { assert t[..c][1..] == t[1..c]; SetOne(f1, t[1..c], 1); }
    if c >= 3 { assert t[1..c][1..] == t[2..c]; SetOne(f2, t[2..c], 2); }
    if c >= 4 { assert t[2..c][1..] == t[3..c]; SetOne(f3, t[3..c], 3); }
    assert t[c..c] == [];
    assert t[..c][1..] == t[1..c];
  }

  lemma SetOne(fd: FileData, words: seq<seq<byte>>, k: nat)
    requires words != []
    ensures SetAll(fd, words, k) == SetAll(SetField(fd, k, ReadNumber(words[0], BaseOf(k)).value), words[1..], k + 1)
  {
  }

  /**
   Decoding a built block 0, whatever follows it in the line buffer: the name and the counted fields,
   for every 32-bit size, the permission without bit 0x8000.
   */
  lemma Block0RoundTrip(fd: FileData, room: nat, tail: seq<byte>)
    requires WellFormed(fd) && FitsBlock(fd) && FieldCount(fd) >= 1
    requires fd.filename != [] && |fd.filename| < room
    ensures Decode(Block0Data(fd) + tail, room) == Decoded(true, Sent(fd, room))
  {
    hide ReadNumber, Digits, PrintSigned, IsWord, SetAll, SetField, ParseFields, Sent, Join;
    var words, name := Texts(fd)[..FieldCount(fd)], fd.filename;
    var text := Join(words);
    var data := Block0Data(fd);
    var more := data[|name| + 1 + |text| + 2..] + tail;
    assert data + tail == name + ([0] + (text + [0, 0] + more));
    CStringOf(name, [0] + (text + [0, 0] + more));
    var s := data + tail;
    assert s[|name|..] == [0] + (text + [0, 0] + more);
    TextsRead(fd);
    SkipOneNul(words, more);
    var into := NO_FILE_DATA.(filenameSize := room, filename := name, filenameValid := true);
    ParseJoined(into, words, 0, more);
    SetTexts(fd, into);
  }

  lemma SkipOneNul(words: seq<seq<byte>>, more: seq<byte>)
    requires words != [] && IsWord(words[0])
    ensures SkipNuls([0] + (Join(words) + [0, 0] + more)) == Join(words) + [0, 0] + more
  {
    var s := Join(words) + [0, 0] + more;
    assert Join(words) != [] && Join(words)[0] == words[0][0];
    assert s[0] != 0;
    assert ([0] + s)[1..] == s;
  }

  // ------------------------------------------------------------- exactly when it succeeds

  predicate AllNul(s: seq<byte>) { forall i :: 0 <= i < |s| ==> s[i] == 0 }

  lemma {:induction false} SkippedNuls(s: seq<byte>)
    ensures SkipNuls(s) == [] <==> AllNul(s)
    ensures SkipNuls(s) != [] ==> SkipNuls(s)[0] != 0
  {
    if s == [] || s[0] != 0 {
    } else {
      SkippedNuls(s[1..]);
      assert s == [0] + s[1..];
    }
  }

  /** Parsing fields leaves the name alone, and never takes a field back. */
  lemma {:induction false} ParsingAdds(fd: FileData, s: seq<byte>, k: nat)
    ensures ParseFields(fd, s, k).fd.filename == fd.filename
    ensures fd.sizeValid ==> ParseFields(fd, s, k).fd.sizeValid
    decreases 4 - k
  {
    hide ReadNumber, WordSpan, AfterWord;
    if k >= 4 || s == [] || s[0] == 0 {
    } else {
      ParsingAdds(SetField(fd, k, ReadNumber(s[..WordSpan(s)], BaseOf(k)).value), AfterWord(s), k + 1);
    }
  }

  /** Without fields, whatever follows the block in the line buffer must be NUL: it is parsed as fields. */
  lemma NameOnly(fd: FileData, room: nat, tail: seq<byte>)
    requires WellFormed(fd) && FitsBlock(fd) && FieldCount(fd) == 0
    requires fd.filename != [] && |fd.filename| < room
    ensures Decode(Block0Data(fd) + tail, room) == Decoded(true, Sent(fd, room)) <==> AllNul(tail)
  {
    hide ReadNumber, ParseFields, AllNul, WordSpan, AfterWord;
    var name, s := fd.filename, Block0Data(fd) + tail;
    assert MetaText(fd) == [];
    assert s == name + s[|name|..];
    CStringOf(name, s[|name|..]);
    var rest := SkipNuls(s[|name|..]);
    var into := NO_FILE_DATA.(filenameSize := room, filename := name, filenameValid := true);
    SkippedNuls(s[|name|..]);
    NulsThenTail(s[|name|..], tail);
    OneField(into, rest);
  }

  lemma NulsThenTail(s: seq<byte>, tail: seq<byte>)
    requires |s| >= |tail| && s[|s| - |tail|..] == tail && forall i :: 0 <= i < |s| - |tail| ==> s[i] == 0
    ensures AllNul(s) <==> AllNul(tail)
  {
    var n := |s| - |tail|;
    assert forall i :: 0 <= i < |tail| ==> tail[i] == s[n + i];
    assert forall i :: n <= i < |s| ==> s[i] == tail[i - n];
  }

  /** A first word sets the size, number or not. */
  lemma OneField(fd: FileData, s: seq<byte>)
    requires s != [] ==> s[0] != 0
    ensures s == [] ==> ParseFields(fd, s, 0) == Decoded(true, fd)
    ensures s != [] ==> ParseFields(fd, s, 0).fd.sizeValid
  {
    if s != [] {
      hide ReadNumber, WordSpan, AfterWord;
      ParsingAdds(SetField(fd, 0, ReadNumber(s[..WordSpan(s)], BaseOf(0)).value), AfterWord(s), 1);
    }
  }

  /**
   Exactly when a received block 0 decodes to what was sent, with anything behind its body in the line
   buffer: the name is not empty and fits the receiver's buffer, and there is a field, or the check bytes
   of the block and everything behind them are NUL.
   */
  lemma {:induction false} RoundTripIff(fd: FileData, room: nat, rest: seq<byte>)
    requires WellFormed(fd) && FitsBlock(fd) && room > 0
    ensures Decode(Body(true, 0, Block0Data(fd))[2..] + rest, room) == Decoded(true, Sent(fd, room)) <==>
            fd.filename != [] && |fd.filename| < room &&
            (FieldCount(fd) >= 1 || (CrcBytes(Block0Data(fd)) == [0, 0] && AllNul(rest)))
  {
    hide ParseFields, MetaText, WellFormed, FieldCount, CrcBytes, Block0Data, Decode, Sent;
    var data := Block0Data(fd);
    var tail := CrcBytes(data) + rest;
    assert Body(true, 0, data)[2..] + rest == data + tail;
    NulCheckBytes(CrcBytes(data), rest);
    DecodesIff(fd, room, tail);
  }

  lemma NulCheckBytes(check: seq<byte>, rest: seq<byte>)
    requires |check| == 2
    ensures AllNul(check + rest) <==> check == [0, 0] && AllNul(rest)
  {
    var s := check + rest;
    assert check == [s[0], s[1]] && forall i :: 0 <= i < |rest| ==> rest[i] == s[i + 2];
    assert forall i :: 2 <= i < |s| ==> s[i] == rest[i - 2];
  }

  lemma {:induction false} DecodesIff(fd: FileData, room: nat, tail: seq<byte>)
    requires WellFormed(fd) && FitsBlock(fd) && room > 0
    ensures Decode(Block0Data(fd) + tail, room) == Decoded(true, Sent(fd, room)) <==>
            fd.filename != [] && |fd.filename| < room && (FieldCount(fd) >= 1 || AllNul(tail))
  {
    hide ParseFields, AllNul, MetaText, WellFormed, FieldCount;
    var name, s := fd.filename, Block0Data(fd) + tail;
    if name == [] {
      assert s[0] == 0;
    } else if |name| >= room {
      NameTooLong(s, name, room);
    } else if FieldCount(fd) >= 1 {
      Block0RoundTrip(fd, room, tail);
    } else {
      NameOnly(fd, room, tail);
    }
  }

  lemma {:induction false} BitsOfNuls(nuls: seq<byte>)
    requires AllNul(nuls)
    ensures Bits(nuls) == Zeros(8 * |nuls|)
    decreases |nuls|
  {
    if nuls == [] {
    } else {
      var n := |nuls| - 1;
      BitsOfNuls(nuls[..n]);
      BitsOfNul();
      assert Zeros(8 * (n + 1)) == Zeros(8 * n) + Zeros(8);
    }
  }

  lemma BitsOfNul()
    ensures ByteBits(0) == Zeros(8)
  {
    ConstantBits();
    ByteHasNoHighBits(0);
    assert Zeros(16)[8..] == Zeros(8);
  }

  lemma NulsAccepted(nuls: seq<byte>)
    requires |nuls| >= 2 && AllNul(nuls)
    ensures Accepts(nuls)
  {
    hide Accepts, Bits, AllNul;
    BitsOfNuls(nuls);
    AcceptsIffMultiple(nuls);
    RemainderZeros(8 * |nuls|);
    RemainderZeroIffMultiple(Zeros(8 * |nuls|));
  }

  /** A block whose first two bytes are the only ones that are not NUL does not have a zero CRC. */
  lemma ShortDataHasCheck(data: seq<byte>)
    requires |data| >= 2 && data[0] != 0 && forall i :: 2 <= i < |data| ==> data[i] == 0
    ensures CrcBytes(data) != [0, 0]
  {
    hide CrcBytes, Bits, Remainder;
    var n := |data| + 2;
    var code, nuls: seq<byte> := data + [0, 0], Repeat(0, n);
    assert code[..n - 2] == data && code[n - 2..] == [0, 0];
    NulsAccepted(nuls);
    assert code == code[..2] + code[2..];
    BitsConcat(code[..2], code[2..]);
    BitsOfNuls(code[2..]);
    BitsOfNuls(nuls);
    assert IsBurst(Flips(nuls, code), 0, 16);
    BurstIsNoticed(nuls, code, 0, 16);
  }

  /** A name of one or two bytes and no field: never read back, whatever the line buffer holds. */
  lemma ShortNameNotRead(fd: FileData, room: nat, rest: seq<byte>)
    requires WellFormed(fd) && FitsBlock(fd) && room > 0 && FieldCount(fd) == 0 && 1 <= |fd.filename| <= 2
    ensures Decode(Body(true, 0, Block0Data(fd))[2..] + rest, room) != Decoded(true, Sent(fd, room))
  {
    hide CrcBytes, Decode, Sent, FieldCount;
    NoFieldsNoText(fd);
    RoundTripIff(fd, room, rest);
    ShortDataHasCheck(Block0Data(fd));
  }

  lemma NameTooLong(s: seq<byte>, name: seq<byte>, room: nat)
    requires 0 < room <= |name| && s != []
    ensures Decode(s, room).fd.filename != name
  {
    hide ParseFields, SkipNuls;
    if s[0] != 0 {
      var got := NameOf(s, room);
      CStringPrefix(s);
      ParsingAdds(NO_FILE_DATA.(filenameSize := room, filename := got, filenameValid := true), SkipNuls(s[|got|..]), 0);
    }
  }

  /** The valid fields are a prefix of size, date, permission, serial. */
  predicate PrefixClosed(fd: FileData) {
    (fd.dateValid ==> fd.sizeValid) && (fd.permissionValid ==> fd.dateValid) && (fd.serialValid ==> fd.permissionValid)
  }

  /** The formats count fields instead of naming them: the same fields come out valid exactly for prefixes. */
  lemma SameFieldsIffPrefix(fd: FileData, room: nat)
    ensures var s := Sent(fd, room);
            (s.sizeValid == fd.sizeValid && s.dateValid == fd.dateValid &&
             s.permissionValid == fd.permissionValid && s.serialValid == fd.serialValid) <==> PrefixClosed(fd)
  {
  }

  // -------------------------------------------------------------------------- in bytes

  /** A block 0 without a name ends the batch: no transfer follows, and no field is valid. */
  lemma NoNameNoFile(s: seq<byte>, room: nat)
    requires room > 0 && s != [] && s[0] == 0x00
    ensures Decode(s, room) == Decoded(false, NO_FILE_DATA.(filenameSize := room))
  {
  }

  /** A name that does not fit is cut to the buffer, less its terminator. */
  lemma LongNameIsCut(name: seq<byte>, rest: seq<byte>, room: nat)
    requires 0 < room && name != [] && forall i :: 0 <= i < |name| ==> name[i] != 0
    requires rest != [] && rest[0] == 0x00
    ensures Decode(name + rest, room).fd.filename == if |name| < room then name else name[..room - 1]
  {
    hide ParseFields, SkipNuls;
    var s := name + rest;
    CStringOf(name, rest);
    assert s[0] == name[0];
    var got := NameOf(s, room);
    CStringPrefix(s);
    ParsingAdds(NO_FILE_DATA.(filenameSize := room, filename := got, filenameValid := true), SkipNuls(s[|got|..]), 0);
  }

  /** snprintf leaves the longest start of the text that the room takes together with a terminator. */
  lemma ClippedIsLongest(text: seq<byte>, room: nat)
    ensures Clipped(text, room) <= text
    ensures room > 0 ==> |Clipped(text, room)| < room
    ensures Clipped(text, room) == text || |Clipped(text, room)| + 1 == room || (room == 0 && Clipped(text, room) == [])
  {
  }

  /** A short block 0 goes out as a frame of 133 bytes, a long one as a frame of 1029. */
  lemma Block0FrameLength(fd: FileData, n: nat)
    requires WellFormed(fd) && FieldsHaveRoom(fd, n) && n >= 1026 && |fd.filename| <= n
    ensures var frame, used := Frame(true, 0, Block0Sent(fd, n)), |fd.filename| + |MetaText(fd)|;
            |frame| == (if used + 5 < 128 then 133 else 1029) &&
            frame[0] == (if used + 5 < 128 then 0x01 else 0x02) && frame[1] == 0x00 && frame[2] == 0xff
  {
    hide MetaText, WellFormed, FieldsHaveRoom, CheckBytes, Laid;
  }

  /** The file of Figure 6 of the Protocol Reference: bbcsched.txt, 6347 bytes, Jun 17 1984, -rw-r--r--. */
  function Figure6(): FileData {
    FileData(true, true, true, true, false, [0x62, 0x62, 0x63, 0x73, 0x63, 0x68, 0x65, 0x64, 0x2e, 0x74, 0x78, 0x74], 0,
             6347, 456377675, 0x1a4, 0)
  }

  lemma LastDigit(n: nat, base: nat, s: seq<byte>, last: byte)
    requires IsBase(base) && n >= base && Digits(n / base, base) == s && last == 0x30 + n % base
    ensures Digits(n, base) == s + [last]
  {
  }

  lemma OneDigit(n: nat, base: nat)
    requires IsBase(base) && n < base
    ensures Digits(n, base) == [0x30 + n]
  {
  }

  lemma Figure6SizeDigits()
    ensures Digits(6347, 10) == [0x36, 0x33, 0x34, 0x37]
  {
    hide Digits;
    OneDigit(6, 10);
    LastDigit(63, 10, [0x36], 0x33);
    LastDigit(634, 10, [0x36, 0x33], 0x34);
    LastDigit(6347, 10, [0x36, 0x33, 0x34], 0x37);
  }

  lemma Figure6DateDigits()
    ensures Digits(456377675, 8) == [0x33, 0x33, 0x31, 0x34, 0x37, 0x34, 0x32, 0x35, 0x31, 0x33]
  {
    hide Digits;
    OneDigit(3, 8);
    LastDigit(27, 8, [0x33], 0x33);
    LastDigit(217, 8, [0x33, 0x33], 0x31);
    LastDigit(1740, 8, [0x33, 0x33, 0x31], 0x34);
    LastDigit(13927, 8, [0x33, 0x33, 0x31, 0x34], 0x37);
    LastDigit(111420, 8, [0x33, 0x33, 0x31, 0x34, 0x37], 0x34);
    LastDigit(891362, 8, [0x33, 0x33, 0x31, 0x34, 0x37, 0x34], 0x32);
    LastDigit(7130901, 8, [0x33, 0x33, 0x31, 0x34, 0x37, 0x34, 0x32], 0x35);
    LastDigit(57047209, 8, [0x33, 0x33, 0x31, 0x34, 0x37, 0x34, 0x32, 0x35], 0x31);
    LastDigit(456377675, 8, [0x33, 0x33, 0x31, 0x34, 0x37, 0x34, 0x32, 0x35, 0x31], 0x33);
  }

  lemma Figure6ModeDigits()
    ensures Digits(33188, 8) == [0x31, 0x30, 0x30, 0x36, 0x34, 0x34]
  {
    hide Digits;
    OneDigit(1, 8);
    LastDigit(8, 8, [0x31], 0x30);
    LastDigit(64, 8, [0x31, 0x30], 0x30);
    LastDigit(518, 8, [0x31, 0x30, 0x30], 0x36);
    LastDigit(4148, 8, [0x31, 0x30, 0x30, 0x36], 0x34);
    LastDigit(33188, 8, [0x31, 0x30, 0x30, 0x36, 0x34], 0x34);
  }

  lemma JoinThree(a: seq<byte>, b: seq<byte>, c: seq<byte>)
    ensures Join([a, b, c]) == a + [SPACE] + (b + [SPACE] + c)
  {
    assert [a, b, c][1..] == [b, c] && [b, c][1..] == [c];
    assert Join([c]) == c && Join([b, c]) == b + [SPACE] + c;
  }

  /** The fields read "6347 3314742513 100644". */
  lemma Figure6Text()
    ensures WellFormed(Figure6()) && FitsBlock(Figure6())
    ensures MetaText(Figure6()) ==
            [0x36, 0x33, 0x34, 0x37] + [0x20] + ([0x33, 0x33, 0x31, 0x34, 0x37, 0x34, 0x32, 0x35, 0x31, 0x33] + [0x20] +
            [0x31, 0x30, 0x30, 0x36, 0x34, 0x34])
  {
    hide Digits, Join;
    var fd := Figure6();
    Figure6SizeDigits();
    Figure6DateDigits();
    Figure6ModeDigits();
    var size, date, mode := Texts(fd)[0], Texts(fd)[1], Texts(fd)[2];
    assert Texts(fd)[..3] == [size, date, mode];
    JoinThree(size, date, mode);
  }

  /** The block built for it is the one of Figure 6, byte for byte up to the check bytes. */
  lemma Figure6Frame()
    ensures WellFormed(Figure6()) && FitsBlock(Figure6())
    ensures var frame := Frame(true, 0, Block0Data(Figure6()));
            |frame| == 133 && frame[..3] == [0x01, 0x00, 0xff] &&
            frame[3..15] == [0x62, 0x62, 0x63, 0x73, 0x63, 0x68, 0x65, 0x64, 0x2e, 0x74, 0x78, 0x74] &&
            frame[15] == 0x00 && frame[16..38] == MetaText(Figure6()) && forall i :: 38 <= i < 131 ==> frame[i] == 0x00
  {
    hide MetaText, WellFormed, CheckBytes;
    Figure6Text();
    var fd := Figure6();
    FramedParts(fd.filename, MetaText(fd), Block0Data(fd));
  }

  lemma FramedParts(name: seq<byte>, text: seq<byte>, data: seq<byte>)
    requires |data| == 128 && |name| + |text| < 128
    requires data == name + [0] + text + Repeat(0, 127 - |name| - |text|)
    ensures var frame, n, t := Frame(true, 0, data), |name| + 3, |text|;
            |frame| == 133 && frame[..3] == [0x01, 0x00, 0xff] && frame[3..n] == name && frame[n] == 0x00 &&
            frame[n + 1..n + 1 + t] == text && forall i :: n + 1 + t <= i < 131 ==> frame[i] == 0x00
  {
    hide CheckBytes;
    var frame := Frame(true, 0, data);
    assert frame[3..131] == data;
    assert forall i :: 3 <= i < 131 ==> frame[i] == data[i - 3];
  }

  /** A word that is no number sets its field to what was read of it, and ends the parse with a failure. */
  lemma NotANumber(fd: FileData, word: seq<byte>, c: byte, rest: seq<byte>, k: nat)
    requires k < 4 && IsWord(word) && (c == 0x00 || c == 0x20) && !ReadNumber(word, BaseOf(k)).whole
    ensures ParseFields(fd, word + [c] + rest, k) ==
            Decoded(false, SetField(fd, k, ReadNumber(word, BaseOf(k)).value))
  {
    hide ReadNumber, IsWord, SetField;
    FirstWord(word, c, rest);
  }

  /** The fields: size in decimal, then date, permission and serial in octal; a NUL or a fifth word ends them. */
  lemma FieldsInOrder(fd: FileData, s: seq<byte>, value: nat)
    ensures BaseOf(0) == 10 && BaseOf(1) == BaseOf(2) == BaseOf(3) == 8
    ensures SetField(fd, 0, value) == fd.(size := value, sizeValid := true)
    ensures SetField(fd, 1, value) == fd.(modifDate := value, dateValid := true)
    ensures SetField(fd, 2, value) == fd.(permission := value % 0x8000, permissionValid := true)
    ensures SetField(fd, 3, value) == fd.(serial := value, serialValid := true)
    ensures ParseFields(fd, s, 4) == Decoded(true, fd) && ParseFields(fd, [0x00] + s, 0) == Decoded(true, fd)
  {
  }

  /** All NULs behind the name are skipped, and nothing else. */
  lemma {:induction false} NulsSkipped(n: nat, s: seq<byte>)
    requires s == [] || s[0] != 0x00
    ensures SkipNuls(Repeat(0 as byte, n) + s) == s
  {
    var nuls: seq<byte> := Repeat(0, n);
    if n == 0 {
      assert nuls + s == s;
    } else {
      NulsSkipped(n - 1, s);
      assert (nuls + s)[1..] == Repeat(0 as byte, n - 1) + s;
    }
  }
}
