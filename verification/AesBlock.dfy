/** The in-place transformations of aes.c. A state_t pointer into a buffer is an array and
    the offset of its sixteen bytes; state[c][r] is the byte at offset 4 * c + r. Every
    method is proved against the function of the same name in module Aes and changes
    nothing outside its block. */
module AesBlock {
  import opened Field
  import opened SBoxes
  import Aes
  import Fips197

  /** Everything but the n bytes at `off` is as it was. */
  twostate predicate OnlyChanged(buf: array<byte>, off: nat, n: nat)
    reads buf
  {
    forall k :: 0 <= k < buf.Length && !(off <= k < off + n) ==> buf[k] == old(buf[k])
  }

  method AddRoundKey(round: nat, buf: array<byte>, off: nat, roundKey: array<byte>)
    requires off + Aes.BLOCKLEN <= buf.Length && buf != roundKey
    requires Aes.BLOCKLEN * (round + 1) <= roundKey.Length
    modifies buf
    ensures buf[off..off + Aes.BLOCKLEN] == Aes.AddRoundKey(old(buf[off..off + Aes.BLOCKLEN]), roundKey[..], round)
    ensures forall k | off <= k < off + 16 :: buf[k] == old(buf[k]) ^ roundKey[16 * round + (k - off)]
    ensures OnlyChanged(buf, off, Aes.BLOCKLEN)
  {
    ghost var s := buf[off..off + Aes.BLOCKLEN];
    ghost var key := roundKey[..][Aes.BLOCKLEN * round..Aes.BLOCKLEN * (round + 1)];
    for i := 0 to 4
      invariant forall k | 0 <= k < Aes.BLOCKLEN :: buf[off + k] == if k < 4 * i then s[k] ^ key[k] else s[k]
      invariant OnlyChanged(buf, off, Aes.BLOCKLEN)
    {
      for j := 0 to 4
        invariant forall k | 0 <= k < Aes.BLOCKLEN :: buf[off + k] == if k < 4 * i + j then s[k] ^ key[k] else s[k]
        invariant OnlyChanged(buf, off, Aes.BLOCKLEN)
      {
        buf[off + 4 * i + j] := buf[off + 4 * i + j] ^ roundKey[round * 4 * 4 + i * 4 + j];
      }
    }
    forall k | off <= k < off + 16 ensures buf[k] == old(buf[k]) ^ roundKey[16 * round + (k - off)] {
      assert buf[off + (k - off)] == s[k - off] ^ key[k - off];
    }
  }

  method SubBytes(buf: array<byte>, off: nat)
    requires off + Aes.BLOCKLEN <= buf.Length
    modifies buf
    ensures buf[off..off + Aes.BLOCKLEN] == Aes.SubBytes(old(buf[off..off + Aes.BLOCKLEN]))
    ensures OnlyChanged(buf, off, Aes.BLOCKLEN)
  {
    hide SBox;
    ghost var s := buf[off..off + Aes.BLOCKLEN];
    for i := 0 to 4
      invariant forall k | 0 <= k < Aes.BLOCKLEN :: buf[off + k] == if k % 4 < i then SBox(s[k]) else s[k]
      invariant OnlyChanged(buf, off, Aes.BLOCKLEN)
    {
      for j := 0 to 4
        invariant forall k | 0 <= k < Aes.BLOCKLEN ::
          buf[off + k] == if k % 4 < i || (k % 4 == i && k / 4 < j) then SBox(s[k]) else s[k]
        invariant OnlyChanged(buf, off, Aes.BLOCKLEN)
      {
        buf[off + 4 * j + i] := SBox(buf[off + 4 * j + i]);
      }
    }
    assert forall k | 0 <= k < Aes.BLOCKLEN :: buf[off + k] == SBox(s[k]);
  }

  method InvSubBytes(buf: array<byte>, off: nat)
    requires off + Aes.BLOCKLEN <= buf.Length
    modifies buf
    ensures buf[off..off + Aes.BLOCKLEN] == Aes.InvSubBytes(old(buf[off..off + Aes.BLOCKLEN]))
    ensures OnlyChanged(buf, off, Aes.BLOCKLEN)
  {
    hide RSBox;
    ghost var s := buf[off..off + Aes.BLOCKLEN];
    for i := 0 to 4
      invariant forall k | 0 <= k < Aes.BLOCKLEN :: buf[off + k] == if k % 4 < i then RSBox(s[k]) else s[k]
      invariant OnlyChanged(buf, off, Aes.BLOCKLEN)
    {
      for j := 0 to 4
        invariant forall k | 0 <= k < Aes.BLOCKLEN ::
          buf[off + k] == if k % 4 < i || (k % 4 == i && k / 4 < j) then RSBox(s[k]) else s[k]
        invariant OnlyChanged(buf, off, Aes.BLOCKLEN)
      {
        buf[off + 4 * j + i] := RSBox(buf[off + 4 * j + i]);
      }
    }
    assert forall k | 0 <= k < Aes.BLOCKLEN :: buf[off + k] == RSBox(s[k]);
  }

  // ----- ShiftRows and InvShiftRows. The source writes the three rotated rows one after the
  // other; here each is a method of its own.

  /** Going from s to t, row r was turned so that column d comes first; the other rows stayed. */
  ghost predicate RowTurned(s: Aes.Block, t: Aes.Block, r: nat, d: nat)
    requires r < 4
  {
    && Aes.TurnedRow(s, t, r, d)
    && forall k | 0 <= k < Aes.BLOCKLEN && k != r && k != 4 + r && k != 8 + r && k != 12 + r :: t[k] == s[k]
  }

  /** Going from s to t, row r became b0, b1, b2, b3; nothing else changed. */
  ghost predicate RowBecame(s: Aes.Block, t: Aes.Block, r: nat, b0: byte, b1: byte, b2: byte, b3: byte)
    requires r < 4
  {
    && t[r] == b0 && t[4 + r] == b1 && t[8 + r] == b2 && t[12 + r] == b3
    && forall k | 0 <= k < Aes.BLOCKLEN && k != r && k != 4 + r && k != 8 + r && k != 12 + r :: t[k] == s[k]
  }

  lemma BecameTurned(s: Aes.Block, t: Aes.Block, r: nat, d: nat)
    requires r < 4 && 1 <= d < 4
    requires RowBecame(s, t, r, s[4 * Aes.Ahead(0, d) + r], s[4 * Aes.Ahead(1, d) + r],
                       s[4 * Aes.Ahead(2, d) + r], s[4 * Aes.Ahead(3, d) + r])
    ensures RowTurned(s, t, r, d)
  {
    hide Aes.Ahead;
  }

  method RotateLeft(buf: array<byte>, off: nat, r: nat)
    requires r < 4 && off + Aes.BLOCKLEN <= buf.Length
    modifies buf
    ensures RowTurned(old(buf[off..off + Aes.BLOCKLEN]), buf[off..off + Aes.BLOCKLEN], r, 1)
    ensures OnlyChanged(buf, off, Aes.BLOCKLEN)
  {
    ghost var s := buf[off..off + Aes.BLOCKLEN];
    var temp := buf[off + r];
    buf[off + r] := buf[off + 4 + r];
    buf[off + 4 + r] := buf[off + 8 + r];
    buf[off + 8 + r] := buf[off + 12 + r];
    buf[off + 12 + r] := temp;
    ghost var t := buf[off..off + Aes.BLOCKLEN];
    assert RowBecame(s, t, r, s[4 + r], s[8 + r], s[12 + r], s[r]);
    hide RowBecame, RowTurned;
    BecameTurned(s, t, r, 1);
  }

  method RotateRight(buf: array<byte>, off: nat, r: nat)
    requires r < 4 && off + Aes.BLOCKLEN <= buf.Length
    modifies buf
    ensures RowTurned(old(buf[off..off + Aes.BLOCKLEN]), buf[off..off + Aes.BLOCKLEN], r, 3)
    ensures OnlyChanged(buf, off, Aes.BLOCKLEN)
  {
    ghost var s := buf[off..off + Aes.BLOCKLEN];
    var temp := buf[off + r];
    buf[off + r] := buf[off + 12 + r];
    buf[off + 12 + r] := buf[off + 8 + r];
    buf[off + 8 + r] := buf[off + 4 + r];
    buf[off + 4 + r] := temp;
    ghost var t := buf[off..off + Aes.BLOCKLEN];
    assert RowBecame(s, t, r, s[12 + r], s[r], s[4 + r], s[8 + r]);
    hide RowBecame, RowTurned;
    BecameTurned(s, t, r, 3);
  }

  method SwapHalves(buf: array<byte>, off: nat, r: nat)
    requires r < 4 && off + Aes.BLOCKLEN <= buf.Length
    modifies buf
    ensures RowTurned(old(buf[off..off + Aes.BLOCKLEN]), buf[off..off + Aes.BLOCKLEN], r, 2)
    ensures OnlyChanged(buf, off, Aes.BLOCKLEN)
  {
    ghost var s := buf[off..off + Aes.BLOCKLEN];
    var temp := buf[off + r];
    buf[off + r] := buf[off + 8 + r];
    buf[off + 8 + r] := temp;
    temp := buf[off + 4 + r];
    buf[off + 4 + r] := buf[off + 12 + r];
    buf[off + 12 + r] := temp;
    ghost var t := buf[off..off + Aes.BLOCKLEN];
    assert RowBecame(s, t, r, s[8 + r], s[12 + r], s[r], s[4 + r]);
    hide RowBecame, RowTurned;
    BecameTurned(s, t, r, 2);
  }

  lemma ThreeTurns(s: Aes.Block, t1: Aes.Block, t2: Aes.Block, t3: Aes.Block, d1: nat, d2: nat, d3: nat)
    requires RowTurned(s, t1, 1, d1) && RowTurned(t1, t2, 2, d2) && RowTurned(t2, t3, 3, d3)
    ensures Aes.TurnedRow(s, t3, 0, 0) && Aes.TurnedRow(s, t3, 0, 4)
    ensures Aes.TurnedRow(s, t3, 1, d1) && Aes.TurnedRow(s, t3, 2, d2) && Aes.TurnedRow(s, t3, 3, d3)
  {
  }

  method ShiftRows(buf: array<byte>, off: nat)
    requires off + Aes.BLOCKLEN <= buf.Length
    modifies buf
    ensures buf[off..off + Aes.BLOCKLEN] == Aes.ShiftRows(old(buf[off..off + Aes.BLOCKLEN]))
    ensures OnlyChanged(buf, off, Aes.BLOCKLEN)
  {
    hide Aes.ShiftRows, Aes.InvShiftRows, RowTurned, Aes.TurnedRow;
    ghost var s := buf[off..off + Aes.BLOCKLEN];
    RotateLeft(buf, off, 1);
    ghost var t1 := buf[off..off + Aes.BLOCKLEN];
    SwapHalves(buf, off, 2);
    ghost var t2 := buf[off..off + Aes.BLOCKLEN];
    RotateRight(buf, off, 3);
    ghost var t3 := buf[off..off + Aes.BLOCKLEN];
    ThreeTurns(s, t1, t2, t3, 1, 2, 3);
    Aes.ShiftedRow(s, 0);
    Aes.ShiftedRow(s, 1);
    Aes.ShiftedRow(s, 2);
    Aes.ShiftedRow(s, 3);
    Aes.EqualWhenTurned(s, t3, Aes.ShiftRows(s), 0, 1, 2, 3);
  }

  method InvShiftRows(buf: array<byte>, off: nat)
    requires off + Aes.BLOCKLEN <= buf.Length
    modifies buf
    ensures buf[off..off + Aes.BLOCKLEN] == Aes.InvShiftRows(old(buf[off..off + Aes.BLOCKLEN]))
    ensures OnlyChanged(buf, off, Aes.BLOCKLEN)
  {
    hide Aes.ShiftRows, Aes.InvShiftRows, RowTurned, Aes.TurnedRow;
    ghost var s := buf[off..off + Aes.BLOCKLEN];
    RotateRight(buf, off, 1);
    ghost var t1 := buf[off..off + Aes.BLOCKLEN];
    SwapHalves(buf, off, 2);
    ghost var t2 := buf[off..off + Aes.BLOCKLEN];
    RotateLeft(buf, off, 3);
    ghost var t3 := buf[off..off + Aes.BLOCKLEN];
    ThreeTurns(s, t1, t2, t3, 3, 2, 1);
    Aes.UnshiftedRow(s, 0);
    Aes.UnshiftedRow(s, 1);
    Aes.UnshiftedRow(s, 2);
    Aes.UnshiftedRow(s, 3);
    Aes.EqualWhenTurned(s, t3, Aes.InvShiftRows(s), 4, 3, 2, 1);
  }

  // ----- MixColumns and InvMixColumns, one column of the loop at a time.

  method MixColumn(buf: array<byte>, c: nat)
    requires c + 4 <= buf.Length
    modifies buf
    ensures
      var w, x, y, z := old(buf[c]), old(buf[c + 1]), old(buf[c + 2]), old(buf[c + 3]);
      && buf[c] == MixByte(w, x, y, z) && buf[c + 1] == MixByte(x, y, z, w)
      && buf[c + 2] == MixByte(y, z, w, x) && buf[c + 3] == MixByte(z, w, x, y)
    ensures OnlyChanged(buf, c, 4)
  {
    hide SharedXor, Sum4, MixByte;
    var t := buf[c];
    ghost var x, y, z := buf[c + 1], buf[c + 2], buf[c + 3];
    var tmp := Sum4(buf[c], buf[c + 1], buf[c + 2], buf[c + 3]);
    Sum4Turns(t, x, y, z);
    Sum4Turns(x, y, z, t);
    Sum4Turns(y, z, t, x);
    SharedXorIsMixByte(t, x, y, z, tmp);
    SharedXorIsMixByte(x, y, z, t, tmp);
    SharedXorIsMixByte(y, z, t, x, tmp);
    SharedXorIsMixByte(z, t, x, y, tmp);
    buf[c] := SharedXor(buf[c], buf[c + 1], tmp);
    buf[c + 1] := SharedXor(buf[c + 1], buf[c + 2], tmp);
    buf[c + 2] := SharedXor(buf[c + 2], buf[c + 3], tmp);
    buf[c + 3] := SharedXor(buf[c + 3], t, tmp);
  }

  method InvMixColumn(buf: array<byte>, col: nat)
    requires col + 4 <= buf.Length
    modifies buf
    ensures
      var w, x, y, z := old(buf[col]), old(buf[col + 1]), old(buf[col + 2]), old(buf[col + 3]);
      && buf[col] == InvMixByte(w, x, y, z) && buf[col + 1] == InvMixByte(x, y, z, w)
      && buf[col + 2] == InvMixByte(y, z, w, x) && buf[col + 3] == InvMixByte(z, w, x, y)
    ensures OnlyChanged(buf, col, 4)
  {
    hide InvMixRow0, InvMixRow1, InvMixRow2, InvMixRow3, InvMixByte;
    var a, b, c, d := buf[col], buf[col + 1], buf[col + 2], buf[col + 3];
    buf[col] := InvMixRow0(a, b, c, d);
    buf[col + 1] := InvMixRow1(a, b, c, d);
    buf[col + 2] := InvMixRow2(a, b, c, d);
    buf[col + 3] := InvMixRow3(a, b, c, d);
    InvMixRowsAreInvMixByte(a, b, c, d);
  }

  method MixColumns(buf: array<byte>, off: nat)
    requires off + Aes.BLOCKLEN <= buf.Length
    modifies buf
    ensures buf[off..off + Aes.BLOCKLEN] == Aes.MixColumns(old(buf[off..off + Aes.BLOCKLEN]))
    ensures OnlyChanged(buf, off, Aes.BLOCKLEN)
  {
    hide MixByte, Aes.MixColumns;
    ghost var s := buf[off..off + Aes.BLOCKLEN];
    ghost var mixed := Aes.MixColumns(s);
    for i := 0 to 4
      invariant forall k | 0 <= k < Aes.BLOCKLEN :: buf[off + k] == if k < 4 * i then mixed[k] else s[k]
      invariant OnlyChanged(buf, off, Aes.BLOCKLEN)
    {
      MixColumn(buf, off + 4 * i);
      Aes.MixedColumn(s, i);
    }
  }

  method InvMixColumns(buf: array<byte>, off: nat)
    requires off + Aes.BLOCKLEN <= buf.Length
    modifies buf
    ensures buf[off..off + Aes.BLOCKLEN] == Aes.InvMixColumns(old(buf[off..off + Aes.BLOCKLEN]))
    ensures OnlyChanged(buf, off, Aes.BLOCKLEN)
  {
    hide InvMixByte, Aes.InvMixColumns;
    ghost var s := buf[off..off + Aes.BLOCKLEN];
    ghost var mixed := Aes.InvMixColumns(s);
    for i := 0 to 4
      invariant forall k | 0 <= k < Aes.BLOCKLEN :: buf[off + k] == if k < 4 * i then mixed[k] else s[k]
      invariant OnlyChanged(buf, off, Aes.BLOCKLEN)
    {
      InvMixColumn(buf, off + 4 * i);
      Aes.UnmixedColumn(s, i);
    }
  }

  // ----- The cipher and the inverse cipher.

  /** The loop leaves in the middle of its last round, before MixColumns. */
  method Cipher(buf: array<byte>, off: nat, roundKey: array<byte>, nr: nat)
    requires off + Aes.BLOCKLEN <= buf.Length && buf != roundKey
    requires 1 <= nr && Aes.BLOCKLEN * (nr + 1) <= roundKey.Length
    modifies buf
    ensures buf[off..off + Aes.BLOCKLEN] == Aes.Cipher(old(buf[off..off + Aes.BLOCKLEN]), roundKey[..], nr)
    ensures Fips197.IsCiphertext(old(buf[off..off + 16]), roundKey[..], nr, buf[off..off + 16])
    ensures OnlyChanged(buf, off, Aes.BLOCKLEN)
  {
    hide Aes.SubBytes, Aes.ShiftRows, Aes.MixColumns, Aes.AddRoundKey;
    ghost var s := buf[off..off + Aes.BLOCKLEN];
    AddRoundKey(0, buf, off, roundKey);
    var round := 1;
    while true
      invariant 1 <= round <= nr
      invariant buf[off..off + Aes.BLOCKLEN] == Aes.Rounds(s, roundKey[..], round - 1)
      invariant OnlyChanged(buf, off, Aes.BLOCKLEN)
      decreases nr - round
    {
      SubBytes(buf, off);
      ShiftRows(buf, off);
      if round == nr {
        break;
      }
      MixColumns(buf, off);
      AddRoundKey(round, buf, off, roundKey);
      round := round + 1;
    }
    AddRoundKey(nr, buf, off, roundKey);
    hide Aes.Cipher, Fips197.IsCiphertext;
    Fips197.CipherIsStandard(s, roundKey[..], nr, buf[off..off + 16]);
  }

  /** The loop runs the rounds backwards and leaves before InvMixColumns in round 0. */
  method InvCipher(buf: array<byte>, off: nat, roundKey: array<byte>, nr: nat)
    requires off + Aes.BLOCKLEN <= buf.Length && buf != roundKey
    requires 1 <= nr && Aes.BLOCKLEN * (nr + 1) <= roundKey.Length
    modifies buf
    ensures buf[off..off + Aes.BLOCKLEN] == Aes.InvCipher(old(buf[off..off + Aes.BLOCKLEN]), roundKey[..], nr)
    ensures Fips197.IsCiphertext(buf[off..off + 16], roundKey[..], nr, old(buf[off..off + 16]))
    ensures OnlyChanged(buf, off, Aes.BLOCKLEN)
  {
    hide Aes.InvSubBytes, Aes.InvShiftRows, Aes.InvMixColumns, Aes.AddRoundKey;
    ghost var s := buf[off..off + Aes.BLOCKLEN];
    AddRoundKey(nr, buf, off, roundKey);
    var round := nr - 1;
    while true
      invariant 0 <= round < nr
      invariant buf[off..off + Aes.BLOCKLEN] == Aes.InvRounds(s, roundKey[..], nr, nr - 1 - round)
      invariant OnlyChanged(buf, off, Aes.BLOCKLEN)
      decreases round
    {
      InvShiftRows(buf, off);
      InvSubBytes(buf, off);
      AddRoundKey(round, buf, off, roundKey);
      if round == 0 {
        break;
      }
      InvMixColumns(buf, off);
      round := round - 1;
    }
    hide Aes.InvCipher, Fips197.IsCiphertext;
    Fips197.InvCipherIsStandard(buf[off..off + 16], roundKey[..], nr, s);
  }
}
