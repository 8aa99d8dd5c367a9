/** The cipher of FIPS 197 byte by byte, as equations between states, with nothing taken from
    module Aes; and the proof that these equations have exactly one solution, which is Aes.Cipher. */
module Fips197 {
  import opened Field
  import opened SBoxes
  import Aes

  type Block = Aes.Block

  // ----- The equations. A state has the byte of row r and column c at 4 * c + r.

  /** The byte that SubBytes and ShiftRows bring to row r of column c. */
  function Substituted(s: Block, c: nat, r: nat): byte
    requires c < 4 && r < 4
  {
    SBox(s[4 * ((c + r) % 4) + r])
  }

  /** One byte after SubBytes, ShiftRows and MixColumns. */
  function Mixed(s: Block, c: nat, r: nat): byte
    requires c < 4 && r < 4
  {
    Times(Substituted(s, c, r), 2) ^ Times(Substituted(s, c, (r + 1) % 4), 3)
    ^ Substituted(s, c, (r + 2) % 4) ^ Substituted(s, c, (r + 3) % 4)
  }

  predicate IsStart(s: Block, t: Block, w: seq<byte>)
    requires |w| >= 16
  {
    forall k | 0 <= k < 16 :: t[k] == s[k] ^ w[k]
  }

  predicate IsRound(s: Block, t: Block, w: seq<byte>, round: nat)
    requires |w| >= 16 * round + 16
  {
    forall k | 0 <= k < 16 :: t[k] == Mixed(s, k / 4, k % 4) ^ w[16 * round + k]
  }

  predicate IsLastRound(s: Block, t: Block, w: seq<byte>, nr: nat)
    requires |w| >= 16 * nr + 16
  {
    forall k | 0 <= k < 16 :: t[k] == Substituted(s, k / 4, k % 4) ^ w[16 * nr + k]
  }

  /** The states after round 0, 1, ..., nr - 1 on the way from s to c. */
  predicate IsTrace(states: seq<Block>, s: Block, w: seq<byte>, nr: nat, c: Block)
    requires 1 <= nr && |w| >= 16 * nr + 16
  {
    && |states| == nr
    && IsStart(s, states[0], w)
    && (forall round | 1 <= round < nr :: IsRound(states[round - 1], states[round], w, round))
    && IsLastRound(states[nr - 1], c, w, nr)
  }

  ghost predicate IsCiphertext(s: Block, w: seq<byte>, nr: nat, c: Block)
    requires 1 <= nr && |w| >= 16 * nr + 16
  {
    exists states :: IsTrace(states, s, w, nr, c)
  }

  // ----- One round.

  lemma StartIs(s: Block, t: Block, w: seq<byte>)
    requires |w| >= 16
    ensures IsStart(s, t, w) <==> t == Aes.AddRoundKey(s, w, 0)
  {
    var u := Aes.AddRoundKey(s, w, 0);
    assert forall k | 0 <= k < 16 :: u[k] == s[k] ^ w[k];
  }

  lemma SubstitutedIs(s: Block, k: nat)
    requires k < 16
    ensures Aes.ShiftRows(Aes.SubBytes(s))[k] == Substituted(s, k / 4, k % 4)
  {
    hide SBox;
  }

  lemma MixedIs(s: Block, k: nat)
    requires k < 16
    ensures Aes.MixColumns(Aes.ShiftRows(Aes.SubBytes(s)))[k] == Mixed(s, k / 4, k % 4)
  {
    hide Aes.ShiftRows, Aes.SubBytes, Aes.MixColumns, InvMixByte, Substituted, Times;
    var t, c, r := Aes.ShiftRows(Aes.SubBytes(s)), k / 4, k % 4;
    ColumnByte(s, c, r);
    ColumnByte(s, c, (r + 1) % 4);
    ColumnByte(s, c, (r + 2) % 4);
    ColumnByte(s, c, (r + 3) % 4);
    Aes.BlockCell(Aes.MixColumns(t), k);
    hide MixByte;
    Aes.MixedCell(t, c, r);
    MixedCells(t, c, r);
    hide Aes.Cell;
    MixByteIs(t[4 * c + r], t[4 * c + (r + 1) % 4], t[4 * c + (r + 2) % 4], t[4 * c + (r + 3) % 4]);
  }

  lemma MixedCells(t: Block, c: nat, r: nat)
    requires c < 4 && r < 4
    ensures Aes.Cell(t, c, r) == t[4 * c + r] && Aes.Cell(t, c, r + 1) == t[4 * c + (r + 1) % 4]
    ensures Aes.Cell(t, c, r + 2) == t[4 * c + (r + 2) % 4] && Aes.Cell(t, c, r + 3) == t[4 * c + (r + 3) % 4]
  {
  }

  lemma MixByteIs(a: byte, b: byte, c: byte, d: byte)
    ensures MixByte(a, b, c, d) == Times(a, 2) ^ Times(b, 3) ^ c ^ d
  {
    hide Times;
  }

  lemma ColumnByte(s: Block, c: nat, r: nat)
    requires c < 4 && r < 4
    ensures Aes.ShiftRows(Aes.SubBytes(s))[4 * c + r] == Substituted(s, c, r)
  {
    hide Aes.ShiftRows, Aes.SubBytes, Substituted;
    SubstitutedIs(s, 4 * c + r);
    assert (4 * c + r) / 4 == c && (4 * c + r) % 4 == r;
  }

  lemma AddRoundKeyByte(s: Block, w: seq<byte>, round: nat, k: nat)
    requires |w| >= 16 * round + 16 && k < 16
    ensures Aes.AddRoundKey(s, w, round)[k] == s[k] ^ w[16 * round + k]
  {
  }

  lemma RoundIs(s: Block, t: Block, w: seq<byte>, round: nat)
    requires |w| >= 16 * round + 16
    ensures
      IsRound(s, t, w, round)
      <==> t == Aes.AddRoundKey(Aes.MixColumns(Aes.ShiftRows(Aes.SubBytes(s))), w, round)
  {
    hide Aes.SubBytes, Aes.ShiftRows, Aes.MixColumns, Aes.AddRoundKey, Mixed;
    var mixed := Aes.MixColumns(Aes.ShiftRows(Aes.SubBytes(s)));
    var u := Aes.AddRoundKey(mixed, w, round);
    forall k | 0 <= k < 16 ensures u[k] == Mixed(s, k / 4, k % 4) ^ w[16 * round + k] {
      MixedIs(s, k);
      AddRoundKeyByte(mixed, w, round, k);
    }
  }

  lemma LastRoundIs(s: Block, t: Block, w: seq<byte>, nr: nat)
    requires |w| >= 16 * nr + 16
    ensures IsLastRound(s, t, w, nr) <==> t == Aes.AddRoundKey(Aes.ShiftRows(Aes.SubBytes(s)), w, nr)
  {
    hide Aes.SubBytes, Aes.ShiftRows, Aes.AddRoundKey, Substituted;
    var shifted := Aes.ShiftRows(Aes.SubBytes(s));
    var u := Aes.AddRoundKey(shifted, w, nr);
    forall k | 0 <= k < 16 ensures u[k] == Substituted(s, k / 4, k % 4) ^ w[16 * nr + k] {
      SubstitutedIs(s, k);
      AddRoundKeyByte(shifted, w, nr, k);
    }
  }

  // ----- All rounds.

  lemma {:induction false} StatesAre(states: seq<Block>, s: Block, w: seq<byte>, nr: nat, c: Block, round: nat)
    requires 1 <= nr && |w| >= 16 * nr + 16 && IsTrace(states, s, w, nr, c) && round < nr
    ensures states[round] == Aes.Rounds(s, w, round)
  {
    hide Aes.SubBytes, Aes.ShiftRows, Aes.MixColumns, Aes.AddRoundKey, IsStart, IsRound, IsLastRound;
    if round == 0 {
      StartIs(s, states[0], w);
    } else {
      StatesAre(states, s, w, nr, c, round - 1);
      RoundIs(states[round - 1], states[round], w, round);
    }
  }

  lemma TraceExists(s: Block, w: seq<byte>, nr: nat)
    requires 1 <= nr && |w| >= 16 * nr + 16
    ensures IsCiphertext(s, w, nr, Aes.Cipher(s, w, nr))
  {
    hide Aes.SubBytes, Aes.ShiftRows, Aes.MixColumns, Aes.AddRoundKey, IsStart, IsRound, IsLastRound;
    var states := seq<Block>(nr, round requires 0 <= round < nr => Aes.Rounds(s, w, round));
    StartIs(s, states[0], w);
    forall round | 1 <= round < nr ensures IsRound(states[round - 1], states[round], w, round) {
      RoundIs(states[round - 1], states[round], w, round);
    }
    LastRoundIs(states[nr - 1], Aes.Cipher(s, w, nr), w, nr);
    assert IsTrace(states, s, w, nr, Aes.Cipher(s, w, nr));
  }

  /** The equations of section 5.1 have one solution, the cipher, for every number of rounds. */
  lemma CipherIsStandard(s: Block, w: seq<byte>, nr: nat, c: Block)
    requires 1 <= nr && |w| >= 16 * nr + 16
    ensures IsCiphertext(s, w, nr, c) <==> c == Aes.Cipher(s, w, nr)
  {
    hide Aes.SubBytes, Aes.ShiftRows, Aes.MixColumns, Aes.AddRoundKey, IsLastRound, Aes.Rounds;
    TraceExists(s, w, nr);
    if states :| IsTrace(states, s, w, nr, c) {
      StatesAre(states, s, w, nr, c, nr - 1);
      LastRoundIs(states[nr - 1], c, w, nr);
    }
  }

  /** And the inverse cipher leads back along the same equations. */
  lemma InvCipherIsStandard(s: Block, w: seq<byte>, nr: nat, c: Block)
    requires 1 <= nr && |w| >= 16 * nr + 16
    ensures IsCiphertext(s, w, nr, c) <==> s == Aes.InvCipher(c, w, nr)
  {
    hide Aes.Cipher, Aes.InvCipher, IsCiphertext;
    CipherIsStandard(s, w, nr, c);
    Aes.CipherInverse(s, w, nr);
    Aes.CipherInverse(c, w, nr);
  }

  // ----- Every round uses its own round key.

  predicate DifferInRound(w: seq<byte>, v: seq<byte>, round: nat) {
    && |w| == |v| && |w| >= 16 * round + 16
    && (forall k | 0 <= k < |w| :: k / 16 != round ==> w[k] == v[k])
    && exists k | 16 * round <= k < 16 * round + 16 :: w[k] != v[k]
  }

  lemma AddRoundKeyDiffers(s: Block, t: Block, w: seq<byte>, v: seq<byte>, round: nat, n: nat)
    requires |w| == |v| && |w| >= 16 * n + 16 && DifferInRound(w, v, round)
    ensures
      n != round ==> (Aes.AddRoundKey(s, w, n) == Aes.AddRoundKey(t, v, n) <==> s == t)
    ensures n == round ==> Aes.AddRoundKey(s, w, n) != Aes.AddRoundKey(s, v, n)
  {
    var a, b := w[16 * n..16 * (n + 1)], v[16 * n..16 * (n + 1)];
    hide Aes.Xor;
    if n != round {
      assert a == b;
      Aes.XorTwice(s, a);
      Aes.XorTwice(t, a);
    } else {
      var k :| 16 * round <= k < 16 * round + 16 && w[k] != v[k];
      assert a[k - 16 * n] == w[k] && b[k - 16 * n] == v[k];
      Aes.XorCancels(a, b, s);
      assert Aes.AddRoundKey(s, w, n) == Aes.Xor(s, a) && Aes.AddRoundKey(s, v, n) == Aes.Xor(s, b);
    }
  }

  lemma {:induction false} RoundsDiffer(s: Block, w: seq<byte>, v: seq<byte>, round: nat, n: nat)
    requires |w| == |v| && |w| >= 16 * n + 16 && DifferInRound(w, v, round)
    ensures Aes.Rounds(s, w, n) == Aes.Rounds(s, v, n) <==> n < round
  {
    hide Aes.SubBytes, Aes.ShiftRows, Aes.MixColumns, Aes.AddRoundKey, DifferInRound;
    hide Aes.InvSubBytes, Aes.InvShiftRows, Aes.InvMixColumns;
    if n == 0 {
      AddRoundKeyDiffers(s, s, w, v, round, 0);
    } else {
      RoundsDiffer(s, w, v, round, n - 1);
      var x, y := Aes.Rounds(s, w, n - 1), Aes.Rounds(s, v, n - 1);
      var p, q := Aes.ShiftRows(Aes.SubBytes(x)), Aes.ShiftRows(Aes.SubBytes(y));
      ShiftedDiffer(x, y);
      Aes.MixColumnsInverse(p);
      Aes.MixColumnsInverse(q);
      AddRoundKeyDiffers(Aes.MixColumns(p), Aes.MixColumns(q), w, v, round, n);
    }
  }

  lemma ShiftedDiffer(x: Block, y: Block)
    ensures Aes.ShiftRows(Aes.SubBytes(x)) == Aes.ShiftRows(Aes.SubBytes(y)) <==> x == y
  {
    hide Aes.SubBytes, Aes.ShiftRows, Aes.InvSubBytes, Aes.InvShiftRows;
    Aes.SubBytesInverse(x);
    Aes.SubBytesInverse(y);
    Aes.ShiftRowsInverse(Aes.SubBytes(x));
    Aes.ShiftRowsInverse(Aes.SubBytes(y));
  }

  /** Two key arrays that differ in the bytes of one round key, any one of them, and in no others
      encrypt every block differently, and decrypt every block differently. */
  lemma EveryRoundKeyMatters(s: Block, w: seq<byte>, v: seq<byte>, nr: nat, round: nat)
    requires 1 <= nr && |w| >= 16 * nr + 16 && |w| == |v| && round <= nr && DifferInRound(w, v, round)
    ensures Aes.Cipher(s, w, nr) != Aes.Cipher(s, v, nr)
    ensures Aes.InvCipher(s, w, nr) != Aes.InvCipher(s, v, nr)
  {
    CiphersDiffer(s, w, v, nr, round);
    hide Aes.Cipher, Aes.InvCipher, DifferInRound;
    if Aes.InvCipher(s, w, nr) == Aes.InvCipher(s, v, nr) {
      Aes.CipherInverse(s, w, nr);
      Aes.CipherInverse(s, v, nr);
      CiphersDiffer(Aes.InvCipher(s, w, nr), w, v, nr, round);
    }
  }

  lemma CiphersDiffer(s: Block, w: seq<byte>, v: seq<byte>, nr: nat, round: nat)
    requires 1 <= nr && |w| >= 16 * nr + 16 && |w| == |v| && round <= nr && DifferInRound(w, v, round)
    ensures Aes.Cipher(s, w, nr) != Aes.Cipher(s, v, nr)
  {
    hide Aes.SubBytes, Aes.ShiftRows, Aes.MixColumns, Aes.AddRoundKey, DifferInRound, Aes.Rounds;
    RoundsDiffer(s, w, v, round, nr - 1);
    var x, y := Aes.Rounds(s, w, nr - 1), Aes.Rounds(s, v, nr - 1);
    ShiftedDiffer(x, y);
    AddRoundKeyDiffers(Aes.ShiftRows(Aes.SubBytes(x)), Aes.ShiftRows(Aes.SubBytes(y)), w, v, round, nr);
  }
}
