/** Parsing block 0 in the line buffer, src/lmodem_rx.c. */
module BlockZeroRx {
  import opened Bytes
  import opened Crc16
  import opened Modem
  import opened Numerals
  import opened BlockZero

  /** The next word from position p on; its separator, and nothing else, is overwritten with a NUL. */
  method GetNextMetaDataString(m: Modem, p: nat) returns (found: bool, word: seq<byte>, next: nat)
    requires m.Valid() && p <= m.blk.Length
    modifies m.blk
    ensures m.Valid() && next <= m.blk.Length
    ensures var s := old(m.blk[p..]);
            found == (s != [] && s[0] != 0) &&
            (found ==> word == s[..WordSpan(s)] && m.blk[next..] == AfterWord(s))
    ensures var s := old(m.blk[p..]);
            m.blk[..] == if found && WordSpan(s) < |s| then old(m.blk[..])[p + WordSpan(s) := 0] else old(m.blk[..])
  {
    hide IsTable;
    ghost var s := m.blk[p..];
    found, word, next := false, [], p;
    if p < m.blk.Length && m.blk[p] != 0 {
      found := true;
      var q := p;
      while q < m.blk.Length && m.blk[q] != SPACE && m.blk[q] != 0
        invariant p <= q <= m.blk.Length
        invariant WordSpan(s) == q - p + WordSpan(m.blk[q..])
        modifies {}
      {
        assert m.blk[q..][1..] == m.blk[q + 1..];
        q := q + 1;
      }
      word := m.blk[p..q];
      next := q;
      if q < m.blk.Length {
        m.blk[q] := 0;
        next := q + 1;
        assert m.blk[next..] == s[q - p + 1..];
      }
    }
  }

  /** The first byte from p on that is not NUL. */
  method SkipToField(m: Modem, p: nat) returns (q: nat)
    requires p <= m.blk.Length
    ensures q <= m.blk.Length && m.blk[q..] == SkipNuls(m.blk[p..])
  {
    q := p;
    while q < m.blk.Length && m.blk[q] == 0
      invariant p <= q <= m.blk.Length && SkipNuls(m.blk[q..]) == SkipNuls(m.blk[p..])
    {
      assert m.blk[q..][1..] == m.blk[q + 1..];
      q := q + 1;
    }
  }

  /** The k-th field, from its word. */
  method StoreField(m: Modem, k: nat, word: seq<byte>) returns (valid: bool)
    requires k < 4
    modifies m`fileData
    ensures valid == ReadNumber(word, BaseOf(k)).whole
    ensures m.fileData == SetField(old(m.fileData), k, ReadNumber(word, BaseOf(k)).value)
  {
    hide ReadNumber;
    var number := ReadNumber(word, if k == 0 then 10 else 8);
    valid := number.whole;
    match k {
      case 0 => m.fileData := m.fileData.(size := number.value, sizeValid := true);
      case 1 => m.fileData := m.fileData.(modifDate := number.value, dateValid := true);
      case 2 => m.fileData := m.fileData.(permission := number.value % 0x1_0000 % 0x8000, permissionValid := true);
      case _ => m.fileData := m.fileData.(serial := number.value, serialValid := true);
    }
    LowBits(number.value);
  }

  /** Cut to sixteen bits, then without the highest of them. */
  lemma LowBits(n: nat)
    ensures n % 0x1_0000 % 0x8000 == n % 0x8000
  {
  }

  /** lymodem_get_meta_data, from the end of the name on. */
  method GetMetaData(m: Modem, start: nat) returns (ok: bool)
    requires m.Valid() && start <= m.blk.Length
    modifies m.blk, m`fileData
    ensures m.Valid()
    ensures Decoded(ok, m.fileData) == ParseFields(old(m.fileData), SkipNuls(old(m.blk[start..])), 0)
  {
    hide IsTable, ReadNumber, SetField, WordSpan, AfterWord;
    ok := true;
    var p := SkipToField(m, start);
    ghost var result := ParseFields(m.fileData, m.blk[p..], 0);
    var nbFields := 0;
    var more := p < m.blk.Length;
    while nbFields < 4 && more
      invariant m.Valid() && 0 <= p <= m.blk.Length && 0 <= nbFields <= 4
      invariant more ==> ok && result == ParseFields(m.fileData, m.blk[p..], nbFields)
      invariant !more ==> result == Decoded(ok, m.fileData)
      decreases 4 - nbFields, more
    {
      ghost var s := m.blk[p..];
      var found, word, next := GetNextMetaDataString(m, p);
      if !found {
        more := false;
      } else {
        var valid := StoreField(m, nbFields, word);
        ok := valid;
        nbFields := nbFields + 1;
        p := next;
        if !valid {
          more := false;
        }
      }
    }
  }

  /** lymodem_decode_block0: the name as far as it fits, then the fields. */
  method DecodeBlock0(m: Modem) returns (ok: bool)
    requires m.Valid() && 2 < m.blk.Length && m.fileData.filenameSize > 0
    modifies m.blk, m`fileData
    ensures m.Valid()
    ensures Decoded(ok, m.fileData) == Decode(old(m.blk[2..]), old(m.fileData.filenameSize))
  {
    hide IsTable, ParseFields, SkipNuls;
    var room := m.fileData.filenameSize;
    ghost var s := m.blk[2..];
    m.fileData := NO_FILE_DATA.(filenameSize := room);
    if m.blk[2] == 0 {
      ok := false;
    } else {
      var n := 0;
      while n < room - 1 && 2 + n < m.blk.Length && m.blk[2 + n] != 0
        invariant 0 <= n <= room - 1 && 2 + n <= m.blk.Length
        invariant forall i :: 0 <= i < n ==> s[i] != 0
        modifies {}
      {
        n := n + 1;
      }
      NameScanned(s, room, n);
      m.fileData := m.fileData.(filename := m.blk[2..2 + n], filenameValid := true);
      assert m.blk[2..2 + n] == s[..n] && m.blk[2 + n..] == s[n..];
      ok := GetMetaData(m, 2 + n);
    }
  }

  /** Scanning up to a NUL, the end or a full buffer finds the name. */
  lemma NameScanned(s: seq<byte>, room: nat, n: nat)
    requires room > 0 && n <= |s| && n <= room - 1 && forall i :: 0 <= i < n ==> s[i] != 0
    requires n == room - 1 || n == |s| || s[n] == 0
    ensures NameOf(s, room) == s[..n]
  {
    CStringPrefix(s);
    var name := CString(s);
    assert name == s[..|name|] && |name| >= n;
    assert n < |s| && s[n] == 0 ==> |name| <= n;
  }
}
