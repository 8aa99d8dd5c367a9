/** The block cipher of FIPS 197 as functions on 16-byte blocks, and the proof that the
    cipher and the inverse cipher undo each other. aes.c keeps a block as the bytes
    state[c][r] = block[4 * c + r], column by column. */
module Aes {
  import opened Field
  import opened SBoxes

  const BLOCKLEN := 16

  type Block = s: seq<byte> | |s| == BLOCKLEN witness seq(BLOCKLEN, _ => 0)

  /** Byte-wise exclusive or. */
  function Xor(a: seq<byte>, b: seq<byte>): (r: seq<byte>)
    requires |a| == |b|
    ensures |r| == |a|
  {
    seq(|a|, i requires 0 <= i < |a| => a[i] ^ b[i])
  }

  lemma XorTwice(a: seq<byte>, b: seq<byte>)
    requires |a| == |b|
    ensures Xor(Xor(a, b), b) == a
  {
    forall i | 0 <= i < |a| ensures Xor(Xor(a, b), b)[i] == a[i] {
      ByteXorTwice(a[i], b[i]);
    }
  }

  lemma ByteXorTwice(x: byte, y: byte)
    ensures (x ^ y) ^ y == x
  {
  }

  lemma XorCancels(a: seq<byte>, b: seq<byte>, x: seq<byte>)
    requires |a| == |b| == |x|
    ensures Xor(a, x) == Xor(b, x) <==> a == b
    ensures Xor(x, a) == Xor(x, b) <==> a == b
  {
    XorTwice(a, x);
    XorTwice(b, x);
    XorCommutes(a, x);
    XorCommutes(b, x);
  }

  lemma XorCommutes(a: seq<byte>, b: seq<byte>)
    requires |a| == |b|
    ensures Xor(a, b) == Xor(b, a)
  {
    forall i | 0 <= i < |a| ensures Xor(a, b)[i] == Xor(b, a)[i] {
      ByteXorCommutes(a[i], b[i]);
    }
  }

  lemma ByteXorCommutes(x: byte, y: byte)
    ensures x ^ y == y ^ x
  {
  }

  // ----- The four transformations of a round and their inverses, sections 5.1 and 5.3.

  function SubBytes(s: Block): Block {
    seq(BLOCKLEN, k requires 0 <= k < BLOCKLEN => SBox(s[k]))
  }

  function InvSubBytes(s: Block): Block {
    seq(BLOCKLEN, k requires 0 <= k < BLOCKLEN => RSBox(s[k]))
  }

  /** The byte in row r of column c, rows counted modulo 4. */
  function Cell(s: Block, c: nat, r: nat): byte
    requires c < 4
  {
    s[4 * c + r % 4]
  }

  /** The column r places to the right of column c, going round. */
  function Ahead(c: nat, r: nat): (d: nat)
    ensures d < 4
  {
    (c + r) % 4
  }

  /** The column r places to the left of column c, going round. */
  function Behind(c: nat, r: nat): (d: nat)
    requires r < 4
    ensures d < 4
  {
    (c + 4 - r) % 4
  }

  /** Row r moves r columns to the left: s'[r, c] = s[r, (c + r) mod 4]. */
  function ShiftRows(s: Block): Block {
    seq(BLOCKLEN, k requires 0 <= k < BLOCKLEN => Cell(s, Ahead(k / 4, k % 4), k))
  }

  /** Row r moves r columns to the right: s'[r, (c + r) mod 4] = s[r, c]. */
  function InvShiftRows(s: Block): Block {
    seq(BLOCKLEN, k requires 0 <= k < BLOCKLEN => Cell(s, Behind(k / 4, k % 4), k))
  }

  /** Every column times the circulant matrix with first row 02 03 01 01. */
  function MixColumns(s: Block): Block {
    seq(BLOCKLEN, k requires 0 <= k < BLOCKLEN =>
      MixByte(Cell(s, k / 4, k), Cell(s, k / 4, k + 1), Cell(s, k / 4, k + 2), Cell(s, k / 4, k + 3)))
  }

  /** Every column times the circulant matrix with first row 0e 0b 0d 09. */
  function InvMixColumns(s: Block): Block {
    seq(BLOCKLEN, k requires 0 <= k < BLOCKLEN =>
      InvMixByte(Cell(s, k / 4, k), Cell(s, k / 4, k + 1), Cell(s, k / 4, k + 2), Cell(s, k / 4, k + 3)))
  }

  function AddRoundKey(s: Block, roundKey: seq<byte>, round: nat): Block
    requires BLOCKLEN * (round + 1) <= |roundKey|
  {
    Xor(s, roundKey[BLOCKLEN * round..BLOCKLEN * (round + 1)])
  }

  // ----- The cipher, section 5.1.

  /** The state after the initial key addition and `round` full rounds. */
  function Rounds(s: Block, roundKey: seq<byte>, round: nat): Block
    requires BLOCKLEN * (round + 1) <= |roundKey|
  {
    if round == 0 then
      AddRoundKey(s, roundKey, 0)
    else
      AddRoundKey(MixColumns(ShiftRows(SubBytes(Rounds(s, roundKey, round - 1)))), roundKey, round)
  }

  /** nr - 1 full rounds, then one without MixColumns. */
  function Cipher(s: Block, roundKey: seq<byte>, nr: nat): Block
    requires 1 <= nr && BLOCKLEN * (nr + 1) <= |roundKey|
  {
    AddRoundKey(ShiftRows(SubBytes(Rounds(s, roundKey, nr - 1))), roundKey, nr)
  }

  // ----- The inverse cipher, section 5.3: the round keys in the opposite order.

  /** The state after the initial key addition and n full inverse rounds. */
  function InvRounds(s: Block, roundKey: seq<byte>, nr: nat, n: nat): Block
    requires n <= nr && BLOCKLEN * (nr + 1) <= |roundKey|
  {
    if n == 0 then
      AddRoundKey(s, roundKey, nr)
    else
      InvMixColumns(AddRoundKey(InvSubBytes(InvShiftRows(InvRounds(s, roundKey, nr, n - 1))), roundKey, nr - n))
  }

  function InvCipher(s: Block, roundKey: seq<byte>, nr: nat): Block
    requires 1 <= nr && BLOCKLEN * (nr + 1) <= |roundKey|
  {
    AddRoundKey(InvSubBytes(InvShiftRows(InvRounds(s, roundKey, nr, nr - 1))), roundKey, 0)
  }

  // ----- Each transformation is undone by its inverse.

  lemma SubBytesInverse(s: Block)
    ensures InvSubBytes(SubBytes(s)) == s && SubBytes(InvSubBytes(s)) == s
  {
    hide SBox, RSBox;
    forall k | 0 <= k < BLOCKLEN
      ensures InvSubBytes(SubBytes(s))[k] == s[k] && SubBytes(InvSubBytes(s))[k] == s[k]
    {
      SBoxesInverse(s[k]);
    }
  }

  lemma ShiftRowsInverse(s: Block)
    ensures InvShiftRows(ShiftRows(s)) == s && ShiftRows(InvShiftRows(s)) == s
  {
    hide Cell, ShiftRows, InvShiftRows, Ahead, Behind;
    var m, u := ShiftRows(s), InvShiftRows(s);
    forall k | 0 <= k < BLOCKLEN
      ensures InvShiftRows(m)[k] == s[k] && ShiftRows(u)[k] == s[k]
    {
      var c, r := k / 4, k % 4;
      BlockCell(s, k);
      BlockCell(InvShiftRows(m), k);
      BlockCell(ShiftRows(u), k);
      ShiftedCell(m, c, r);
      ShiftedCell(s, Behind(c, r), r);
      ShiftedCell(u, c, r);
      ShiftedCell(s, Ahead(c, r), r);
      RotateBack(c, r);
    }
  }

  lemma RotateBack(c: nat, r: nat)
    requires c < 4 && r < 4
    ensures Ahead(Behind(c, r), r) == c == Behind(Ahead(c, r), r)
  {
  }

  lemma ShiftedCell(s: Block, c: nat, r: nat)
    requires c < 4 && r < 4
    ensures Cell(ShiftRows(s), c, r) == Cell(s, Ahead(c, r), r)
    ensures Cell(InvShiftRows(s), c, r) == Cell(s, Behind(c, r), r)
  {
    hide Cell, Ahead, Behind;
    var k := 4 * c + r;
    CellIndex(c, r);
    BlockCell(ShiftRows(s), k);
    BlockCell(InvShiftRows(s), k);
    SameCell(s, Ahead(c, r), k, r);
    SameCell(s, Behind(c, r), k, r);
  }

  lemma BlockCell(s: Block, k: nat)
    requires k < BLOCKLEN
    ensures s[k] == Cell(s, k / 4, k % 4)
  {
  }

  lemma CellIndex(c: nat, r: nat)
    requires c < 4 && r < 4
    ensures (4 * c + r) / 4 == c && (4 * c + r) % 4 == r
  {
  }

  /** Row r of t is row r of s, turned so that column d comes first. */
  ghost predicate TurnedRow(s: Block, t: Block, r: nat, d: nat)
    requires r < 4
  {
    && t[r] == s[4 * Ahead(0, d) + r]
    && t[4 + r] == s[4 * Ahead(1, d) + r]
    && t[8 + r] == s[4 * Ahead(2, d) + r]
    && t[12 + r] == s[4 * Ahead(3, d) + r]
  }

  lemma ShiftedRow(s: Block, r: nat)
    requires r < 4
    ensures TurnedRow(s, ShiftRows(s), r, r)
  {
    hide ShiftRows, InvShiftRows, Ahead, Behind;
    ShiftedCell(s, 0, r);
    ShiftedCell(s, 1, r);
    ShiftedCell(s, 2, r);
    ShiftedCell(s, 3, r);
  }

  lemma UnshiftedRow(s: Block, r: nat)
    requires r < 4
    ensures TurnedRow(s, InvShiftRows(s), r, 4 - r)
  {
    hide ShiftRows, InvShiftRows, Ahead, Behind;
    BehindIsAhead(0, r);
    BehindIsAhead(1, r);
    BehindIsAhead(2, r);
    BehindIsAhead(3, r);
    ShiftedCell(s, 0, r);
    ShiftedCell(s, 1, r);
    ShiftedCell(s, 2, r);
    ShiftedCell(s, 3, r);
  }

  lemma BehindIsAhead(c: nat, r: nat)
    requires r < 4
    ensures Behind(c, r) == Ahead(c, 4 - r)
  {
  }

  ghost predicate SameRow(s: Block, t: Block, r: nat)
    requires r < 4
  {
    s[r] == t[r] && s[4 + r] == t[4 + r] && s[8 + r] == t[8 + r] && s[12 + r] == t[12 + r]
  }

  lemma EqualByRows(s: Block, t: Block)
    requires SameRow(s, t, 0) && SameRow(s, t, 1) && SameRow(s, t, 2) && SameRow(s, t, 3)
    ensures s == t
  {
  }

  /** A block is fixed by how each of its rows is turned. */
  lemma EqualWhenTurned(s: Block, t: Block, t': Block, d0: nat, d1: nat, d2: nat, d3: nat)
    requires TurnedRow(s, t, 0, d0) && TurnedRow(s, t, 1, d1) && TurnedRow(s, t, 2, d2) && TurnedRow(s, t, 3, d3)
    requires TurnedRow(s, t', 0, d0) && TurnedRow(s, t', 1, d1) && TurnedRow(s, t', 2, d2) && TurnedRow(s, t', 3, d3)
    ensures t == t'
  {
    hide Ahead;
    assert SameRow(t, t', 0) && SameRow(t, t', 1) && SameRow(t, t', 2) && SameRow(t, t', 3);
    EqualByRows(t, t');
  }

  lemma MixedCell(s: Block, c: nat, r: nat)
    requires c < 4
    ensures Cell(MixColumns(s), c, r) == MixByte(Cell(s, c, r), Cell(s, c, r + 1), Cell(s, c, r + 2), Cell(s, c, r + 3))
    ensures Cell(InvMixColumns(s), c, r)
         == InvMixByte(Cell(s, c, r), Cell(s, c, r + 1), Cell(s, c, r + 2), Cell(s, c, r + 3))
  {
    hide Cell, MixByte, InvMixByte;
    var k := 4 * c + r % 4;
    CellIndex(c, r % 4);
    BlockCell(MixColumns(s), k);
    BlockCell(InvMixColumns(s), k);
    SameCell(MixColumns(s), c, k % 4, r);
    SameCell(InvMixColumns(s), c, k % 4, r);
    SameCell(s, c, k, r);
    SameCell(s, c, k + 1, r + 1);
    SameCell(s, c, k + 2, r + 2);
    SameCell(s, c, k + 3, r + 3);
  }

  lemma SameCell(s: Block, c: nat, r: nat, r': nat)
    requires c < 4 && r % 4 == r' % 4
    ensures Cell(s, c, r) == Cell(s, c, r')
  {
  }

  /** Column c of a mixed block, byte by byte. */
  lemma MixedColumn(s: Block, c: nat)
    requires c < 4
    ensures
      var m, w, x, y, z := MixColumns(s), s[4 * c], s[4 * c + 1], s[4 * c + 2], s[4 * c + 3];
      && m[4 * c] == MixByte(w, x, y, z)
      && m[4 * c + 1] == MixByte(x, y, z, w)
      && m[4 * c + 2] == MixByte(y, z, w, x)
      && m[4 * c + 3] == MixByte(z, w, x, y)
  {
    hide MixByte, InvMixByte, MixColumns, InvMixColumns;
    MixedCell(s, c, 0);
    MixedCell(s, c, 1);
    MixedCell(s, c, 2);
    MixedCell(s, c, 3);
  }

  lemma UnmixedColumn(s: Block, c: nat)
    requires c < 4
    ensures
      var m, w, x, y, z := InvMixColumns(s), s[4 * c], s[4 * c + 1], s[4 * c + 2], s[4 * c + 3];
      && m[4 * c] == InvMixByte(w, x, y, z)
      && m[4 * c + 1] == InvMixByte(x, y, z, w)
      && m[4 * c + 2] == InvMixByte(y, z, w, x)
      && m[4 * c + 3] == InvMixByte(z, w, x, y)
  {
    hide MixByte, InvMixByte, MixColumns, InvMixColumns;
    MixedCell(s, c, 0);
    MixedCell(s, c, 1);
    MixedCell(s, c, 2);
    MixedCell(s, c, 3);
  }

  lemma MixColumnsInverse(s: Block)
    ensures InvMixColumns(MixColumns(s)) == s && MixColumns(InvMixColumns(s)) == s
  {
    hide MixByte, InvMixByte, Cell, MixColumns, InvMixColumns;
    var m, u := MixColumns(s), InvMixColumns(s);
    forall k | 0 <= k < BLOCKLEN
      ensures InvMixColumns(m)[k] == s[k] && MixColumns(u)[k] == s[k]
    {
      UnmixedCell(s, k / 4, k % 4);
      BlockCell(s, k);
      BlockCell(InvMixColumns(m), k);
      BlockCell(MixColumns(u), k);
    }
  }

  lemma UnmixedCell(s: Block, c: nat, r: nat)
    requires c < 4
    ensures Cell(InvMixColumns(MixColumns(s)), c, r) == Cell(s, c, r)
    ensures Cell(MixColumns(InvMixColumns(s)), c, r) == Cell(s, c, r)
  {
    hide MixByte, InvMixByte, Cell, MixColumns, InvMixColumns;
    var w, x, y, z := Cell(s, c, r), Cell(s, c, r + 1), Cell(s, c, r + 2), Cell(s, c, r + 3);
    SameCell(s, c, r + 4, r);
    SameCell(s, c, r + 5, r + 1);
    SameCell(s, c, r + 6, r + 2);
    MixedCell(s, c, r);
    MixedCell(s, c, r + 1);
    MixedCell(s, c, r + 2);
    MixedCell(s, c, r + 3);
    MixedCell(MixColumns(s), c, r);
    MixedCell(InvMixColumns(s), c, r);
    UnmixByte(w, x, y, z);
    RemixByte(w, x, y, z);
  }

  lemma AddRoundKeyTwice(s: Block, roundKey: seq<byte>, round: nat)
    requires BLOCKLEN * (round + 1) <= |roundKey|
    ensures AddRoundKey(AddRoundKey(s, roundKey, round), roundKey, round) == s
  {
    XorTwice(s, roundKey[BLOCKLEN * round..BLOCKLEN * (round + 1)]);
  }

  // ----- Cipher and InvCipher undo each other, for every round count.

  /** Decrypting a ciphertext, the state after n inverse rounds is the one encryption had just
      before the key addition of round nr - n. */
  lemma {:induction false} InvRoundsRetrace(s: Block, roundKey: seq<byte>, nr: nat, n: nat)
    requires n < nr && BLOCKLEN * (nr + 1) <= |roundKey|
    ensures InvRounds(Cipher(s, roundKey, nr), roundKey, nr, n)
         == ShiftRows(SubBytes(Rounds(s, roundKey, nr - 1 - n)))
  {
    hide SubBytes, InvSubBytes, ShiftRows, InvShiftRows, MixColumns, InvMixColumns, AddRoundKey;
    if n == 0 {
      AddRoundKeyTwice(ShiftRows(SubBytes(Rounds(s, roundKey, nr - 1))), roundKey, nr);
    } else {
      InvRoundsRetrace(s, roundKey, nr, n - 1);
      var r := Rounds(s, roundKey, nr - n);
      ShiftRowsInverse(SubBytes(r));
      SubBytesInverse(r);
      var t := ShiftRows(SubBytes(Rounds(s, roundKey, nr - n - 1)));
      AddRoundKeyTwice(MixColumns(t), roundKey, nr - n);
      MixColumnsInverse(t);
    }
  }

  /** The converse: encrypting what decryption produced, the state after n rounds is the one
      decryption had just before the key addition of round n. */
  lemma {:induction false} RoundsRetrace(c: Block, roundKey: seq<byte>, nr: nat, n: nat)
    requires n < nr && BLOCKLEN * (nr + 1) <= |roundKey|
    ensures Rounds(InvCipher(c, roundKey, nr), roundKey, n)
         == InvSubBytes(InvShiftRows(InvRounds(c, roundKey, nr, nr - 1 - n)))
  {
    hide SubBytes, InvSubBytes, ShiftRows, InvShiftRows, MixColumns, InvMixColumns, AddRoundKey;
    if n == 0 {
      AddRoundKeyTwice(InvSubBytes(InvShiftRows(InvRounds(c, roundKey, nr, nr - 1))), roundKey, 0);
    } else {
      RoundsRetrace(c, roundKey, nr, n - 1);
      var r := InvRounds(c, roundKey, nr, nr - n);
      SubBytesInverse(InvShiftRows(r));
      ShiftRowsInverse(r);
      var t := InvSubBytes(InvShiftRows(InvRounds(c, roundKey, nr, nr - 1 - n)));
      MixColumnsInverse(AddRoundKey(t, roundKey, n));
      AddRoundKeyTwice(t, roundKey, n);
    }
  }

  /** Decryption undoes encryption and encryption undoes decryption, whatever the round keys
      and however many rounds. */
  lemma CipherInverse(s: Block, roundKey: seq<byte>, nr: nat)
    requires 1 <= nr && BLOCKLEN * (nr + 1) <= |roundKey|
    ensures InvCipher(Cipher(s, roundKey, nr), roundKey, nr) == s
    ensures Cipher(InvCipher(s, roundKey, nr), roundKey, nr) == s
  {
    hide SubBytes, InvSubBytes, ShiftRows, InvShiftRows, AddRoundKey;
    InvRoundsRetrace(s, roundKey, nr, nr - 1);
    var r := Rounds(s, roundKey, 0);
    ShiftRowsInverse(SubBytes(r));
    SubBytesInverse(r);
    AddRoundKeyTwice(s, roundKey, 0);
    RoundsRetrace(s, roundKey, nr, nr - 1);
    var q := InvRounds(s, roundKey, nr, 0);
    SubBytesInverse(InvShiftRows(q));
    ShiftRowsInverse(q);
    AddRoundKeyTwice(s, roundKey, nr);
  }

  /** Hence the cipher is a permutation of the blocks. */
  lemma CipherInjective(a: Block, b: Block, roundKey: seq<byte>, nr: nat)
    requires 1 <= nr && BLOCKLEN * (nr + 1) <= |roundKey|
    requires Cipher(a, roundKey, nr) == Cipher(b, roundKey, nr)
    ensures a == b
  {
    hide Cipher, InvCipher;
    CipherInverse(a, roundKey, nr);
    CipherInverse(b, roundKey, nr);
  }
}
