/** The CBC mode (section 6.2 of NIST SP 800-38A) and the CTR mode (section 6.5) as functions
    on byte strings, and what they promise over whole runs of calls on one context. */
module Modes {
  import opened Field
  import opened Aes
  import opened Counter

  /** An expanded key together with the number of rounds it is for. */
  datatype Key = Key(roundKey: seq<byte>, nr: nat) {
    predicate Valid() {
      1 <= nr && BLOCKLEN * (nr + 1) <= |roundKey|
    }

    function Encrypt(b: Block): Block
      requires Valid()
    {
      Cipher(b, roundKey, nr)
    }

    function Decrypt(b: Block): Block
      requires Valid()
    {
      InvCipher(b, roundKey, nr)
    }
  }

  predicate Aligned(s: seq<byte>) {
    |s| % BLOCKLEN == 0
  }

  /** Block j of a byte string. */
  function BlockAt(s: seq<byte>, j: nat): Block
    requires BLOCKLEN * (j + 1) <= |s|
  {
    s[BLOCKLEN * j..BLOCKLEN * (j + 1)]
  }

  // ----- CBC

  function CbcEncrypt(key: Key, iv: Block, p: seq<byte>): (c: seq<byte>)
    requires key.Valid() && Aligned(p)
    ensures |c| == |p|
    decreases |p|
  {
    if p == [] then []
    else
      var first := key.Encrypt(Xor(p[..BLOCKLEN], iv));
      first + CbcEncrypt(key, first, p[BLOCKLEN..])
  }

  function CbcDecrypt(key: Key, iv: Block, c: seq<byte>): (p: seq<byte>)
    requires key.Valid() && Aligned(c)
    ensures |p| == |c|
    decreases |c|
  {
    if c == [] then []
    else Xor(key.Decrypt(c[..BLOCKLEN]), iv) + CbcDecrypt(key, c[..BLOCKLEN], c[BLOCKLEN..])
  }

  /** The chaining value after the ciphertext c: its last block, or the old value. */
  function CbcNext(iv: Block, c: seq<byte>): Block
    requires Aligned(c)
  {
    if c == [] then iv else c[|c| - BLOCKLEN..]
  }

  lemma CbcStep(c: seq<byte>, iv: Block)
    requires Aligned(c) && c != []
    ensures CbcNext(c[..BLOCKLEN], c[BLOCKLEN..]) == CbcNext(iv, c)
  {
    var tail := c[BLOCKLEN..];
    if tail == [] {
      assert c[..BLOCKLEN] == c[|c| - BLOCKLEN..];
    } else {
      assert tail[|tail| - BLOCKLEN..] == c[|c| - BLOCKLEN..];
    }
  }

  lemma BlockOfTail(s: seq<byte>, j: nat)
    requires 1 <= j && BLOCKLEN * (j + 1) <= |s|
    ensures BlockAt(s[BLOCKLEN..], j - 1) == BlockAt(s, j)
  {
  }

  /** The ciphertext block before block j. */
  function Previous(iv: Block, c: seq<byte>, j: nat): Block
    requires BLOCKLEN * j <= |c|
  {
    if j == 0 then iv else BlockAt(c, j - 1)
  }

  lemma PreviousOfTail(iv: Block, c: seq<byte>, j: nat)
    requires 1 <= j && BLOCKLEN * (j + 1) <= |c|
    ensures Previous(c[..BLOCKLEN], c[BLOCKLEN..], j - 1) == Previous(iv, c, j)
  {
    if j > 1 {
      BlockOfTail(c, j - 1);
    }
  }

  /** C_j = CIPH(P_j xor C_(j-1)), with C_0 the initialization vector. */
  lemma {:induction false} CbcEncryptBlock(key: Key, iv: Block, p: seq<byte>, j: nat)
    requires key.Valid() && Aligned(p) && BLOCKLEN * (j + 1) <= |p|
    ensures var c := CbcEncrypt(key, iv, p);
      BlockAt(c, j) == key.Encrypt(Xor(BlockAt(p, j), Previous(iv, c, j)))
    decreases j
  {
    hide Cipher, Xor;
    var c, first := CbcEncrypt(key, iv, p), key.Encrypt(Xor(p[..BLOCKLEN], iv));
    var rest := CbcEncrypt(key, first, p[BLOCKLEN..]);
    assert c[..BLOCKLEN] == first && c[BLOCKLEN..] == rest;
    if j > 0 {
      CbcEncryptBlock(key, first, p[BLOCKLEN..], j - 1);
      BlockOfTail(p, j);
      BlockOfTail(c, j);
      PreviousOfTail(iv, c, j);
      hide BlockAt, Previous, CbcEncrypt;
    }
  }

  /** P_j = CIPH^-1(C_j) xor C_(j-1): every plaintext block depends on two ciphertext blocks. */
  lemma {:induction false} CbcDecryptBlock(key: Key, iv: Block, c: seq<byte>, j: nat)
    requires key.Valid() && Aligned(c) && BLOCKLEN * (j + 1) <= |c|
    ensures BlockAt(CbcDecrypt(key, iv, c), j) == Xor(key.Decrypt(BlockAt(c, j)), Previous(iv, c, j))
    decreases j
  {
    hide InvCipher, Xor;
    var p := CbcDecrypt(key, iv, c);
    assert p[..BLOCKLEN] == Xor(key.Decrypt(c[..BLOCKLEN]), iv);
    assert p[BLOCKLEN..] == CbcDecrypt(key, c[..BLOCKLEN], c[BLOCKLEN..]);
    if j > 0 {
      CbcDecryptBlock(key, c[..BLOCKLEN], c[BLOCKLEN..], j - 1);
      BlockOfTail(p, j);
      BlockOfTail(c, j);
      PreviousOfTail(iv, c, j);
      hide BlockAt, Previous, CbcDecrypt;
    }
  }

  lemma {:induction false} CbcDecryptEncrypt(key: Key, iv: Block, p: seq<byte>)
    requires key.Valid() && Aligned(p)
    ensures CbcDecrypt(key, iv, CbcEncrypt(key, iv, p)) == p
    decreases |p|
  {
    hide Cipher, InvCipher;
    if p != [] {
      var x := Xor(p[..BLOCKLEN], iv);
      var first := key.Encrypt(x);
      var c := CbcEncrypt(key, iv, p);
      assert c[..BLOCKLEN] == first && c[BLOCKLEN..] == CbcEncrypt(key, first, p[BLOCKLEN..]);
      CipherInverse(x, key.roundKey, key.nr);
      XorTwice(p[..BLOCKLEN], iv);
      CbcDecryptEncrypt(key, first, p[BLOCKLEN..]);
    }
  }

  lemma {:induction false} CbcEncryptAppend(key: Key, iv: Block, p: seq<byte>, q: seq<byte>)
    requires key.Valid() && Aligned(p) && Aligned(q)
    ensures var c := CbcEncrypt(key, iv, p);
      CbcEncrypt(key, iv, p + q) == c + CbcEncrypt(key, CbcNext(iv, c), q)
    decreases |p|
  {
    hide Cipher;
    if p == [] {
      assert p + q == q;
    } else {
      var first := key.Encrypt(Xor(p[..BLOCKLEN], iv));
      assert (p + q)[..BLOCKLEN] == p[..BLOCKLEN] && (p + q)[BLOCKLEN..] == p[BLOCKLEN..] + q;
      CbcEncryptAppend(key, first, p[BLOCKLEN..], q);
      var c := CbcEncrypt(key, iv, p);
      assert c[..BLOCKLEN] == first && c[BLOCKLEN..] == CbcEncrypt(key, first, p[BLOCKLEN..]);
      CbcStep(c, iv);
    }
  }

  lemma {:induction false} CbcDecryptAppend(key: Key, iv: Block, c: seq<byte>, d: seq<byte>)
    requires key.Valid() && Aligned(c) && Aligned(d)
    ensures CbcDecrypt(key, iv, c + d) == CbcDecrypt(key, iv, c) + CbcDecrypt(key, CbcNext(iv, c), d)
    decreases |c|
  {
    hide InvCipher;
    if c == [] {
      assert c + d == d;
    } else {
      assert (c + d)[..BLOCKLEN] == c[..BLOCKLEN] && (c + d)[BLOCKLEN..] == c[BLOCKLEN..] + d;
      CbcDecryptAppend(key, c[..BLOCKLEN], c[BLOCKLEN..], d);
      CbcStep(c, iv);
    }
  }

  // ----- Runs of CBC calls on one context: each call starts from the Iv the last one left.

  function Concat(chunks: seq<seq<byte>>): seq<byte> {
    if chunks == [] then [] else chunks[0] + Concat(chunks[1..])
  }

  predicate AllAligned(chunks: seq<seq<byte>>) {
    forall chunk :: chunk in chunks ==> Aligned(chunk)
  }

  /** The outputs of a run of AES_CBC_encrypt_buffer calls, and the Iv it leaves. */
  function CbcEncryptRun(key: Key, iv: Block, chunks: seq<seq<byte>>): (r: (seq<seq<byte>>, Block))
    requires key.Valid() && AllAligned(chunks)
    decreases |chunks|
  {
    if chunks == [] then ([], iv)
    else
      var c := CbcEncrypt(key, iv, chunks[0]);
      var (rest, last) := CbcEncryptRun(key, CbcNext(iv, c), chunks[1..]);
      ([c] + rest, last)
  }

  /** The outputs of a run of AES_CBC_decrypt_buffer calls, and the Iv it leaves. */
  function CbcDecryptRun(key: Key, iv: Block, chunks: seq<seq<byte>>): (r: (seq<seq<byte>>, Block))
    requires key.Valid() && AllAligned(chunks)
    decreases |chunks|
  {
    if chunks == [] then ([], iv)
    else
      var p := CbcDecrypt(key, iv, chunks[0]);
      var (rest, last) := CbcDecryptRun(key, CbcNext(iv, chunks[0]), chunks[1..]);
      ([p] + rest, last)
  }

  lemma {:induction false} ConcatAligned(chunks: seq<seq<byte>>)
    requires AllAligned(chunks)
    ensures Aligned(Concat(chunks))
  {
    if chunks != [] {
      ConcatAligned(chunks[1..]);
      assert Aligned(chunks[0]);
    }
  }

  lemma CbcNextAppend(iv: Block, c: seq<byte>, d: seq<byte>)
    requires Aligned(c) && Aligned(d)
    ensures CbcNext(iv, c + d) == CbcNext(CbcNext(iv, c), d)
  {
  }

  lemma ConcatCons(head: seq<byte>, tail: seq<seq<byte>>)
    ensures Concat([head] + tail) == head + Concat(tail)
  {
    assert ([head] + tail)[1..] == tail;
  }

  lemma AlignedTail(chunks: seq<seq<byte>>)
    requires AllAligned(chunks) && chunks != []
    ensures Aligned(chunks[0]) && AllAligned(chunks[1..])
    ensures Concat(chunks) == chunks[0] + Concat(chunks[1..])
  {
  }

  lemma CbcEncryptRunCons(key: Key, iv: Block, chunks: seq<seq<byte>>)
    requires key.Valid() && AllAligned(chunks) && chunks != []
    ensures
      && Aligned(chunks[0]) && AllAligned(chunks[1..])
      && var c := CbcEncrypt(key, iv, chunks[0]);
         var rest := CbcEncryptRun(key, CbcNext(iv, c), chunks[1..]);
         CbcEncryptRun(key, iv, chunks) == ([c] + rest.0, rest.1)
  {
    AlignedTail(chunks);
    hide Cipher, CbcEncrypt, CbcNext;
  }

  lemma CbcDecryptRunCons(key: Key, iv: Block, chunks: seq<seq<byte>>)
    requires key.Valid() && AllAligned(chunks) && chunks != []
    ensures
      && Aligned(chunks[0]) && AllAligned(chunks[1..])
      && var rest := CbcDecryptRun(key, CbcNext(iv, chunks[0]), chunks[1..]);
         CbcDecryptRun(key, iv, chunks) == ([CbcDecrypt(key, iv, chunks[0])] + rest.0, rest.1)
  {
    AlignedTail(chunks);
    hide InvCipher, CbcDecrypt, CbcNext;
  }

  /** However a message is cut, a run of encryptions makes the ciphertext of the whole. */
  lemma {:induction false} CbcEncryptRunIsWhole(key: Key, iv: Block, chunks: seq<seq<byte>>)
    requires key.Valid() && AllAligned(chunks)
    ensures Aligned(Concat(chunks))
    ensures Concat(CbcEncryptRun(key, iv, chunks).0) == CbcEncrypt(key, iv, Concat(chunks))
    ensures CbcEncryptRun(key, iv, chunks).1 == CbcNext(iv, CbcEncrypt(key, iv, Concat(chunks)))
    decreases |chunks|
  {
    ConcatAligned(chunks);
    if chunks != [] {
      hide CbcEncryptRun, Concat, AllAligned, CbcNext, Cipher;
      CbcEncryptRunCons(key, iv, chunks);
      var p, ps := chunks[0], chunks[1..];
      var c := CbcEncrypt(key, iv, p);
      var next := CbcNext(iv, c);
      CbcEncryptRunIsWhole(key, next, ps);
      hide CbcEncrypt;
      ConcatCons(c, CbcEncryptRun(key, next, ps).0);
      AlignedTail(chunks);
      CbcEncryptAppend(key, iv, p, Concat(ps));
      CbcNextAppend(iv, c, CbcEncrypt(key, next, Concat(ps)));
    }
  }

  lemma {:induction false} CbcDecryptRunIsWhole(key: Key, iv: Block, chunks: seq<seq<byte>>)
    requires key.Valid() && AllAligned(chunks)
    ensures Aligned(Concat(chunks))
    ensures Concat(CbcDecryptRun(key, iv, chunks).0) == CbcDecrypt(key, iv, Concat(chunks))
    ensures CbcDecryptRun(key, iv, chunks).1 == CbcNext(iv, Concat(chunks))
    decreases |chunks|
  {
    ConcatAligned(chunks);
    if chunks != [] {
      hide CbcDecryptRun, Concat, AllAligned, CbcNext, InvCipher;
      CbcDecryptRunCons(key, iv, chunks);
      var c, cs := chunks[0], chunks[1..];
      var next := CbcNext(iv, c);
      CbcDecryptRunIsWhole(key, next, cs);
      hide CbcDecrypt;
      ConcatCons(CbcDecrypt(key, iv, c), CbcDecryptRun(key, next, cs).0);
      AlignedTail(chunks);
      CbcDecryptAppend(key, iv, c, Concat(cs));
      CbcNextAppend(iv, c, Concat(cs));
    }
  }

  /** Encrypt a message in any block-aligned pieces, decrypt the ciphertext in any others from
      the same Iv: the message comes back, and both contexts end with the same Iv. */
  lemma CbcRunRoundTrip(key: Key, iv: Block, message: seq<seq<byte>>, received: seq<seq<byte>>)
    requires key.Valid() && AllAligned(message) && AllAligned(received)
    requires Concat(received) == Concat(CbcEncryptRun(key, iv, message).0)
    ensures Concat(CbcDecryptRun(key, iv, received).0) == Concat(message)
    ensures CbcDecryptRun(key, iv, received).1 == CbcEncryptRun(key, iv, message).1
  {
    CbcEncryptRunIsWhole(key, iv, message);
    CbcDecryptRunIsWhole(key, iv, received);
    CbcDecryptEncrypt(key, iv, Concat(message));
  }

  // ----- CBC decryption is local.

  /** Two ciphertexts that differ in block k alone decrypt to the same plaintext except in
      blocks k and k + 1, and those two do differ. */
  lemma CbcDecryptLocality(key: Key, iv: Block, c: seq<byte>, d: seq<byte>, k: nat, j: nat)
    requires key.Valid() && Aligned(c) && |c| == |d|
    requires BLOCKLEN * (k + 1) <= |c| && BLOCKLEN * (j + 1) <= |c|
    requires forall i: nat | BLOCKLEN * (i + 1) <= |c| :: BlockAt(c, i) == BlockAt(d, i) <==> i != k
    ensures BlockAt(CbcDecrypt(key, iv, c), j) == BlockAt(CbcDecrypt(key, iv, d), j) <==> j != k && j != k + 1
  {
    hide InvCipher, Xor, BlockAt;
    CbcDecryptBlock(key, iv, c, j);
    CbcDecryptBlock(key, iv, d, j);
    var x, y := Previous(iv, c, j), Previous(iv, d, j);
    var u, v := key.Decrypt(BlockAt(c, j)), key.Decrypt(BlockAt(d, j));
    if j == k {
      CipherInverse(BlockAt(c, j), key.roundKey, key.nr);
      CipherInverse(BlockAt(d, j), key.roundKey, key.nr);
      assert j == 0 || BlockAt(c, j - 1) == BlockAt(d, j - 1);
      XorCancels(u, v, x);
    } else {
      assert u == v;
      XorCancels(x, y, u);
    }
  }

  // ----- CTR

  /** Keystream block k. */
  function CtrBlock(key: Key, iv: Block, k: nat): Block
    requires key.Valid()
  {
    key.Encrypt(Advance(iv, k))
  }

  /** Byte i of the keystream. */
  function CtrByte(key: Key, iv: Block, i: nat): byte
    requires key.Valid()
  {
    CtrBlock(key, iv, i / BLOCKLEN)[i % BLOCKLEN]
  }

  /** out[i] = in[i] xor CIPH(iv + i / 16)[i mod 16], for every length. */
  function Ctr(key: Key, iv: Block, p: seq<byte>): (c: seq<byte>)
    requires key.Valid()
    ensures |c| == |p|
  {
    seq(|p|, i requires 0 <= i < |p| => p[i] ^ CtrByte(key, iv, i))
  }

  /** How many counters a call on n bytes takes: n / 16, rounded up. */
  function BlocksUsed(n: nat): nat {
    (n + BLOCKLEN - 1) / BLOCKLEN
  }

  /** n counters in a row. */
  function Counters(iv: Block, n: nat): (blocks: seq<Block>)
    ensures |blocks| == n
  {
    seq<Block>(n, k requires 0 <= k < n => Advance(iv, k))
  }

  lemma CtrTwice(key: Key, iv: Block, p: seq<byte>)
    requires key.Valid()
    ensures Ctr(key, iv, Ctr(key, iv, p)) == p
  {
    hide CtrByte;
    forall i | 0 <= i < |p| ensures Ctr(key, iv, Ctr(key, iv, p))[i] == p[i] {
      ByteXorTwice(p[i], CtrByte(key, iv, i));
    }
  }

  lemma CtrPrefix(key: Key, iv: Block, p: seq<byte>, n: nat)
    requires key.Valid() && n <= |p|
    ensures Ctr(key, iv, p[..n]) == Ctr(key, iv, p)[..n]
  {
    hide CtrByte;
  }

  /** A call can be split after any whole number of blocks. */
  lemma CtrSplit(key: Key, iv: Block, p: seq<byte>, q: seq<byte>)
    requires key.Valid() && Aligned(p)
    ensures Ctr(key, iv, p + q) == Ctr(key, iv, p) + Ctr(key, Advance(iv, BlocksUsed(|p|)), q)
  {
    hide CtrByte, Advance, BlocksUsed;
    AlignedBlocks(p);
    var n, m := |p|, BlocksUsed(|p|);
    var whole, first, second := Ctr(key, iv, p + q), Ctr(key, iv, p), Ctr(key, Advance(iv, m), q);
    forall i | 0 <= i < |p + q| ensures whole[i] == (first + second)[i] {
      if i >= n {
        CtrByteAdvance(key, iv, m, i - n);
      }
    }
  }

  lemma AlignedBlocks(p: seq<byte>)
    requires Aligned(p)
    ensures |p| == BLOCKLEN * BlocksUsed(|p|)
  {
  }

  lemma CtrByteAdvance(key: Key, iv: Block, m: nat, i: nat)
    requires key.Valid()
    ensures CtrByte(key, Advance(iv, m), i) == CtrByte(key, iv, BLOCKLEN * m + i)
  {
    hide CtrBlock, Advance;
    OffsetInBlocks(m, i);
    CtrBlockAdvance(key, iv, m, i / BLOCKLEN);
  }

  lemma OffsetInBlocks(m: nat, i: nat)
    ensures (BLOCKLEN * m + i) / BLOCKLEN == m + i / BLOCKLEN && (BLOCKLEN * m + i) % BLOCKLEN == i % BLOCKLEN
  {
  }

  lemma CtrBlockAdvance(key: Key, iv: Block, m: nat, k: nat)
    requires key.Valid()
    ensures CtrBlock(key, Advance(iv, m), k) == CtrBlock(key, iv, m + k)
  {
    hide Cipher, Advance;
    AdvanceAdvance(iv, m, k);
  }

  /** Splitting a call after n bytes of n + m leaves the Iv of the undivided call exactly when
      one part is whole blocks or the two incomplete blocks do not fit into one. */
  lemma CtrSplitIv(iv: Block, n: nat, m: nat)
    ensures Advance(Advance(iv, BlocksUsed(n)), BlocksUsed(m)) == Advance(iv, BlocksUsed(n + m))
       <==> n % BLOCKLEN == 0 || m % BLOCKLEN == 0 || n % BLOCKLEN + m % BLOCKLEN > BLOCKLEN
  {
    hide Advance;
    AdvanceAdvance(iv, BlocksUsed(n), BlocksUsed(m));
    BlocksOfSum(n, m);
    AdvanceRepeats(iv, BlocksUsed(n + m), BlocksUsed(n) + BlocksUsed(m));
  }

  lemma BlocksOfSum(n: nat, m: nat)
    ensures
      var wasted := n % BLOCKLEN != 0 && m % BLOCKLEN != 0 && n % BLOCKLEN + m % BLOCKLEN <= BLOCKLEN;
      BlocksUsed(n) + BlocksUsed(m) == BlocksUsed(n + m) + if wasted then 1 else 0
  {
    var a, r, b, s := n / BLOCKLEN, n % BLOCKLEN, m / BLOCKLEN, m % BLOCKLEN;
    BlocksOfParts(a, r);
    BlocksOfParts(b, s);
    if r + s < BLOCKLEN {
      BlocksOfParts(a + b, r + s);
    } else {
      BlocksOfParts(a + b + 1, r + s - BLOCKLEN);
    }
  }

  lemma BlocksOfParts(a: nat, r: nat)
    requires r < BLOCKLEN
    ensures BlocksUsed(BLOCKLEN * a + r) == a + if r == 0 then 0 else 1
  {
  }

  // ----- Runs of CTR calls on one context.

  /** The outputs of a run of AES_CTR_xcrypt_buffer calls, the Iv it leaves, and the blocks it
      gave to the cipher, in order. */
  function CtrRun(key: Key, iv: Block, chunks: seq<seq<byte>>): (r: (seq<seq<byte>>, Block, seq<Block>))
    requires key.Valid()
    decreases |chunks|
  {
    if chunks == [] then ([], iv, [])
    else
      var used := BlocksUsed(|chunks[0]|);
      var (rest, last, fed) := CtrRun(key, Advance(iv, used), chunks[1..]);
      ([Ctr(key, iv, chunks[0])] + rest, last, Counters(iv, used) + fed)
  }

  function TotalBlocks(chunks: seq<seq<byte>>): nat {
    if chunks == [] then 0 else BlocksUsed(|chunks[0]|) + TotalBlocks(chunks[1..])
  }

  lemma CountersAppend(iv: Block, m: nat, n: nat)
    ensures Counters(iv, m) + Counters(Advance(iv, m), n) == Counters(iv, m + n)
  {
    hide Advance;
    forall k | 0 <= k < n ensures Advance(Advance(iv, m), k) == Advance(iv, m + k) {
      AdvanceAdvance(iv, m, k);
    }
  }

  lemma CountersNone(iv: Block)
    ensures Counters(iv, 0) == [] && Advance(iv, 0) == iv
  {
  }

  /** Whatever the lengths of the calls, the blocks given to the cipher over the whole run are
      iv, iv + 1, iv + 2, ... and the Iv left behind is the next one. */
  lemma {:induction false} CtrRunCounters(key: Key, iv: Block, chunks: seq<seq<byte>>)
    requires key.Valid()
    ensures CtrRun(key, iv, chunks).2 == Counters(iv, TotalBlocks(chunks))
    ensures CtrRun(key, iv, chunks).1 == Advance(iv, TotalBlocks(chunks))
    decreases |chunks|
  {
    hide Advance, Ctr, Counters, BlocksUsed;
    if chunks == [] {
      CountersNone(iv);
    } else {
      var used := BlocksUsed(|chunks[0]|);
      CtrRunCounters(key, Advance(iv, used), chunks[1..]);
      CountersAppend(iv, used, TotalBlocks(chunks[1..]));
      AdvanceAdvance(iv, used, TotalBlocks(chunks[1..]));
    }
  }

  /** A second run of the same lengths from the same Iv restores every byte. */
  lemma {:induction false} CtrRunTwice(key: Key, iv: Block, chunks: seq<seq<byte>>)
    requires key.Valid()
    ensures CtrRun(key, iv, CtrRun(key, iv, chunks).0) == (chunks, CtrRun(key, iv, chunks).1, CtrRun(key, iv, chunks).2)
    decreases |chunks|
  {
    hide Advance, Ctr, Counters, BlocksUsed;
    if chunks != [] {
      var next := Advance(iv, BlocksUsed(|chunks[0]|));
      CtrRunTwice(key, next, chunks[1..]);
      CtrTwice(key, iv, chunks[0]);
      var out := CtrRun(key, iv, chunks).0;
      assert out[1..] == CtrRun(key, next, chunks[1..]).0;
      assert out[0] == Ctr(key, iv, chunks[0]);
      var again := CtrRun(key, iv, out);
      assert again.0 == [Ctr(key, iv, out[0])] + CtrRun(key, next, out[1..]).0 == chunks;
    }
  }

  /** No two of n successive counters are equal exactly when n is at most 2^128. */
  lemma CountersDistinct(iv: Block, n: nat)
    ensures (forall j, k | 0 <= j < k < n :: Counters(iv, n)[j] != Counters(iv, n)[k]) <==> n <= MODULUS
  {
    hide Advance;
    if n <= MODULUS {
      forall j, k | 0 <= j < k < n ensures Counters(iv, n)[j] != Counters(iv, n)[k] {
        AdvanceRepeats(iv, j, k);
        assert (k - j) % MODULUS == k - j;
      }
    } else {
      AdvanceRepeats(iv, 0, MODULUS);
      assert Counters(iv, n)[0] == Counters(iv, n)[MODULUS];
    }
  }

  /** Over a whole run of at most 2^128 blocks all keystream blocks are different. */
  lemma CtrRunKeystreamDistinct(key: Key, iv: Block, chunks: seq<seq<byte>>, j: nat, k: nat)
    requires key.Valid() && j < k < TotalBlocks(chunks) <= MODULUS
    ensures |CtrRun(key, iv, chunks).2| == TotalBlocks(chunks)
    ensures key.Encrypt(CtrRun(key, iv, chunks).2[j]) != key.Encrypt(CtrRun(key, iv, chunks).2[k])
  {
    hide Advance, Cipher;
    CtrRunCounters(key, iv, chunks);
    CountersDistinct(iv, TotalBlocks(chunks));
    var a, b := Counters(iv, TotalBlocks(chunks))[j], Counters(iv, TotalBlocks(chunks))[k];
    if key.Encrypt(a) == key.Encrypt(b) {
      CipherInjective(a, b, key.roundKey, key.nr);
    }
  }
}
