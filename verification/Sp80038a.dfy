/** The CBC mode (section 6.2 of NIST SP 800-38A) and the CTR mode (section 6.5 and appendix B.1) as
    equations between the bytes of the input, the output and the Iv, with nothing taken from module
    Modes; and the proof that they have exactly one solution, what module Modes computes. */
module Sp80038a {
  import opened Field
  import Aes
  import opened Counter
  import opened Modes

  type Block = Aes.Block

  predicate IsExpanded(w: seq<byte>, nr: nat) {
    1 <= nr && |w| >= 16 * nr + 16
  }

  // ----- CBC

  /** P_j xor C_(j-1), with the Iv for C_(-1). */
  function Chained(iv: Block, p: seq<byte>, c: seq<byte>, j: nat): Block
    requires 16 * j + 16 <= |p| == |c|
  {
    seq(16, k requires 0 <= k < 16 => p[16 * j + k] ^ (if j == 0 then iv[k] else c[16 * (j - 1) + k]))
  }

  /** C_j = CIPH(P_j xor C_(j-1)) for every block. */
  predicate IsCbcEncryption(w: seq<byte>, nr: nat, iv: Block, p: seq<byte>, c: seq<byte>)
    requires IsExpanded(w, nr)
  {
    && |c| == |p| && |p| % 16 == 0
    && forall j | 0 <= j < |p| / 16 :: c[16 * j..16 * j + 16] == Aes.Cipher(Chained(iv, p, c, j), w, nr)
  }

  /** P_j = CIPH^-1(C_j) xor C_(j-1) for every byte. */
  predicate IsCbcDecryption(w: seq<byte>, nr: nat, iv: Block, c: seq<byte>, p: seq<byte>)
    requires IsExpanded(w, nr)
  {
    && |p| == |c| && |c| % 16 == 0
    && forall i | 0 <= i < |c| ::
         p[i] == Aes.InvCipher(c[i / 16 * 16..i / 16 * 16 + 16], w, nr)[i % 16] ^ (if i < 16 then iv[i] else c[i - 16])
  }

  lemma ChainedIsXor(iv: Block, p: seq<byte>, c: seq<byte>, j: nat)
    requires 16 * j + 16 <= |p| == |c|
    ensures Chained(iv, p, c, j) == Aes.Xor(BlockAt(p, j), Previous(iv, c, j))
  {
  }

  lemma EncryptionIs(w: seq<byte>, nr: nat, iv: Block, p: seq<byte>)
    requires IsExpanded(w, nr) && |p| % 16 == 0
    ensures IsCbcEncryption(w, nr, iv, p, CbcEncrypt(Key(w, nr), iv, p))
  {
    hide Aes.Cipher, Aes.Xor, Chained, CbcEncrypt, Previous;
    var c := CbcEncrypt(Key(w, nr), iv, p);
    forall j | 0 <= j < |p| / 16 ensures c[16 * j..16 * j + 16] == Aes.Cipher(Chained(iv, p, c, j), w, nr) {
      CbcEncryptBlock(Key(w, nr), iv, p, j);
      ChainedIsXor(iv, p, c, j);
    }
  }

  lemma ChainedAgrees(iv: Block, p: seq<byte>, c: seq<byte>, d: seq<byte>, j: nat)
    requires 16 * j + 16 <= |p| == |c| == |d| && c[..16 * j] == d[..16 * j]
    ensures Chained(iv, p, c, j) == Chained(iv, p, d, j)
  {
    assert forall k | 0 <= k < 16 * j :: c[k] == c[..16 * j][k] == d[k];
  }

  lemma {:induction false} EncryptionsAgree(w: seq<byte>, nr: nat, iv: Block, p: seq<byte>,
                                            c: seq<byte>, d: seq<byte>, n: nat)
    requires IsExpanded(w, nr) && IsCbcEncryption(w, nr, iv, p, c) && IsCbcEncryption(w, nr, iv, p, d) && 16 * n <= |p|
    ensures c[..16 * n] == d[..16 * n]
  {
    hide Aes.Cipher, Chained;
    if n > 0 {
      var j := n - 1;
      EncryptionsAgree(w, nr, iv, p, c, d, j);
      ChainedAgrees(iv, p, c, d, j);
      assert c[16 * j..16 * j + 16] == d[16 * j..16 * j + 16];
      assert c[..16 * n] == c[..16 * j] + c[16 * j..16 * j + 16];
      assert d[..16 * n] == d[..16 * j] + d[16 * j..16 * j + 16];
    }
  }

  /** The equations of CBC encryption have one solution. */
  lemma CbcEncryptIsStandard(w: seq<byte>, nr: nat, iv: Block, p: seq<byte>, c: seq<byte>)
    requires IsExpanded(w, nr) && |p| % 16 == 0
    ensures IsCbcEncryption(w, nr, iv, p, c) <==> c == CbcEncrypt(Key(w, nr), iv, p)
  {
    hide Aes.Cipher, Chained, CbcEncrypt;
    EncryptionIs(w, nr, iv, p);
    if IsCbcEncryption(w, nr, iv, p, c) {
      var e := CbcEncrypt(Key(w, nr), iv, p);
      EncryptionsAgree(w, nr, iv, p, c, e, |p| / 16);
      assert c[..|c|] == c && e[..|e|] == e;
    }
  }

  lemma DecryptedByte(w: seq<byte>, nr: nat, iv: Block, c: seq<byte>, i: nat)
    requires IsExpanded(w, nr) && |c| % 16 == 0 && i < |c|
    ensures
      CbcDecrypt(Key(w, nr), iv, c)[i]
      == Aes.InvCipher(c[i / 16 * 16..i / 16 * 16 + 16], w, nr)[i % 16] ^ (if i < 16 then iv[i] else c[i - 16])
  {
    hide Aes.InvCipher, CbcDecrypt, Aes.Xor;
    var key, j := Key(w, nr), i / 16;
    var p := CbcDecrypt(key, iv, c);
    CbcDecryptBlock(key, iv, c, j);
    assert BlockAt(p, j)[i % 16] == p[i];
    assert Previous(iv, c, j)[i % 16] == if i < 16 then iv[i] else c[i - 16];
    XorByte(key.Decrypt(BlockAt(c, j)), Previous(iv, c, j), i % 16);
    assert BlockAt(c, j) == c[j * 16..j * 16 + 16];
  }

  lemma XorByte(a: Block, b: Block, k: nat)
    requires k < 16
    ensures Aes.Xor(a, b)[k] == a[k] ^ b[k]
  {
  }

  /** The equations of CBC decryption have one solution. */
  lemma CbcDecryptIsStandard(w: seq<byte>, nr: nat, iv: Block, c: seq<byte>, p: seq<byte>)
    requires IsExpanded(w, nr) && |c| % 16 == 0
    ensures IsCbcDecryption(w, nr, iv, c, p) <==> p == CbcDecrypt(Key(w, nr), iv, c)
  {
    hide Aes.InvCipher, CbcDecrypt;
    var e := CbcDecrypt(Key(w, nr), iv, c);
    forall i | 0 <= i < |c|
      ensures e[i] == Aes.InvCipher(c[i / 16 * 16..i / 16 * 16 + 16], w, nr)[i % 16] ^ (if i < 16 then iv[i] else c[i - 16])
    {
      DecryptedByte(w, nr, iv, c, i);
    }
  }

  // ----- CTR

  /** out[i] = in[i] xor byte i mod 16 of CIPH(iv + i / 16), the counter being a big-endian number
      modulo 2^128. */
  ghost predicate IsCtr(w: seq<byte>, nr: nat, iv: Block, p: seq<byte>, c: seq<byte>)
    requires IsExpanded(w, nr)
  {
    && |c| == |p|
    && forall i, b: Block |
         0 <= i < |p| && Value(b) == (Value(iv) + i / 16) % 0x1_0000_0000_0000_0000_0000_0000_0000_0000 ::
         c[i] == p[i] ^ Aes.Cipher(b, w, nr)[i % 16]
  }

  lemma CounterIs(iv: Block, b: Block, n: nat)
    ensures Value(b) == (Value(iv) + n) % MODULUS <==> b == Advance(iv, n)
  {
    hide Advance, Value;
    AdvanceValue(iv, n);
    if Value(b) == (Value(iv) + n) % MODULUS {
      EqualValues(b, Advance(iv, n));
    }
  }

  /** The equations of CTR have one solution, for every length. */
  lemma CtrIsStandard(w: seq<byte>, nr: nat, iv: Block, p: seq<byte>, c: seq<byte>)
    requires IsExpanded(w, nr)
    ensures IsCtr(w, nr, iv, p, c) <==> c == Ctr(Key(w, nr), iv, p)
  {
    hide Aes.Cipher, Advance, Value;
    var key := Key(w, nr);
    if IsCtr(w, nr, iv, p, c) {
      forall i | 0 <= i < |p| ensures c[i] == p[i] ^ CtrByte(key, iv, i) {
        CounterIs(iv, Advance(iv, i / 16), i / 16);
      }
    }
    if c == Ctr(key, iv, p) {
      forall i, b: Block | 0 <= i < |p| && Value(b) == (Value(iv) + i / 16) % MODULUS
        ensures c[i] == p[i] ^ Aes.Cipher(b, w, nr)[i % 16]
      {
        CounterIs(iv, b, i / 16);
      }
    }
  }

  // ----- Runs of calls on one context.

  /** The blocks taken by the first m calls, each its length over 16, rounded up. */
  function BlocksBefore(chunks: seq<seq<byte>>, m: nat): nat
    requires m <= |chunks|
  {
    if m == 0 then 0 else (|chunks[0]| + 15) / 16 + BlocksBefore(chunks[1..], m - 1)
  }

  /** Byte i of the output of call m: the counter goes on from call to call. */
  lemma {:induction false} CtrRunIsStandard(w: seq<byte>, nr: nat, iv: Block, chunks: seq<seq<byte>>,
                                            m: nat, i: nat, b: Block)
    requires IsExpanded(w, nr) && m < |chunks| && i < |chunks[m]|
    requires Value(b) == (Value(iv) + BlocksBefore(chunks, m) + i / 16) % 0x1_0000_0000_0000_0000_0000_0000_0000_0000
    ensures
      var out := CtrRun(Key(w, nr), iv, chunks).0;
      |out| == |chunks| && |out[m]| == |chunks[m]| && out[m][i] == chunks[m][i] ^ Aes.Cipher(b, w, nr)[i % 16]
    decreases m
  {
    hide Aes.Cipher, Advance, Value, Ctr, Counters, CtrRun;
    var key := Key(w, nr);
    CtrRunStep(key, iv, chunks);
    if m == 0 {
      CtrIsStandard(w, nr, iv, chunks[0], Ctr(key, iv, chunks[0]));
    } else {
      var used := (|chunks[0]| + 15) / 16;
      var next := Advance(iv, used);
      AdvanceValue(iv, used);
      SumOfRemainders(Value(iv) + used, BlocksBefore(chunks[1..], m - 1) + i / 16);
      CtrRunIsStandard(w, nr, next, chunks[1..], m - 1, i, b);
    }
  }

  lemma SumOfRemainders(x: nat, y: nat)
    ensures (x % MODULUS + y) % MODULUS == (x + y) % MODULUS
  {
    Remainder(x % MODULUS + y, (x + y) / MODULUS - x / MODULUS, (x + y) % MODULUS);
  }

  lemma {:induction false} CtrRunLength(key: Key, iv: Block, chunks: seq<seq<byte>>)
    requires key.Valid()
    ensures |CtrRun(key, iv, chunks).0| == |chunks|
    decreases |chunks|
  {
    hide Advance, Ctr, Counters, BlocksUsed;
    if chunks != [] {
      CtrRunLength(key, Advance(iv, BlocksUsed(|chunks[0]|)), chunks[1..]);
    }
  }

  lemma CtrRunStep(key: Key, iv: Block, chunks: seq<seq<byte>>)
    requires key.Valid() && chunks != []
    ensures
      var rest := CtrRun(key, Advance(iv, (|chunks[0]| + 15) / 16), chunks[1..]).0;
      |rest| == |chunks| - 1 && CtrRun(key, iv, chunks).0 == [Ctr(key, iv, chunks[0])] + rest
  {
    hide Advance, Ctr, Counters;
    CtrRunLength(key, Advance(iv, BlocksUsed(|chunks[0]|)), chunks[1..]);
  }

  lemma {:induction false} BlocksBeforeAll(chunks: seq<seq<byte>>)
    ensures BlocksBefore(chunks, |chunks|) == TotalBlocks(chunks)
  {
    if chunks != [] {
      BlocksBeforeAll(chunks[1..]);
    }
  }

  /** The Iv after a run. */
  lemma CtrRunIv(key: Key, iv: Block, chunks: seq<seq<byte>>)
    requires key.Valid()
    ensures
      Value(CtrRun(key, iv, chunks).1)
      == (Value(iv) + BlocksBefore(chunks, |chunks|)) % 0x1_0000_0000_0000_0000_0000_0000_0000_0000
  {
    hide Value, Advance, CtrRun, BlocksBefore, TotalBlocks, Counters;
    CtrRunCounters(key, iv, chunks);
    BlocksBeforeAll(chunks);
    AdvanceValue(iv, TotalBlocks(chunks));
  }

  /** However a message is cut into calls, the outputs together solve the equations for the whole,
      and the Iv left behind is the last ciphertext block. */
  lemma CbcRunIsStandard(w: seq<byte>, nr: nat, iv: Block, chunks: seq<seq<byte>>)
    requires IsExpanded(w, nr) && AllAligned(chunks)
    ensures
      var (out, last) := CbcEncryptRun(Key(w, nr), iv, chunks);
      var c := Concat(out);
      IsCbcEncryption(w, nr, iv, Concat(chunks), c) && last == if c == [] then iv else c[|c| - 16..]
  {
    hide Aes.Cipher, CbcEncrypt, CbcEncryptRun, Concat, IsCbcEncryption, AllAligned;
    CbcEncryptRunIsWhole(Key(w, nr), iv, chunks);
    EncryptionIs(w, nr, iv, Concat(chunks));
  }
}
