/** struct AES_ctx and the public functions of aes.c, which rewrite the caller's buffer and the
    context's Iv in place. */
module AesContext {
  import opened Field
  import opened Aes
  import opened Counter
  import opened Modes
  import opened KeySchedule
  import AesBlock
  import opened Sp80038a

  class AesCtx {
    const size: KeySize
    const roundKey: array<byte>
    const iv: array<byte>

    ghost predicate Valid() {
      roundKey.Length == 4 * size.Words() && iv.Length == BLOCKLEN && roundKey != iv
    }

    /** The expanded key as the modes use it. */
    ghost function Schedule(): (key: Key)
      requires Valid()
      reads roundKey
      ensures key.Valid()
    {
      Key(roundKey[..], size.Nr())
    }

    ghost function Iv(): Block
      requires Valid()
      reads iv
    {
      iv[..]
    }

    constructor (size: KeySize)
      ensures Valid() && this.size == size && fresh(roundKey) && fresh(iv)
    {
      this.size := size;
      roundKey := new byte[4 * size.Words()];
      iv := new byte[BLOCKLEN];
    }

    /** AES_init_ctx */
    method Init(key: seq<byte>)
      requires Valid() && |key| == 4 * size.Nk()
      modifies roundKey
      ensures roundKey[..] == ExpandedKey(key, size) && IsSchedule(roundKey[..], key, size)
    {
      hide IsSchedule;
      KeyExpansion(roundKey, key, size);
    }

    /** AES_init_ctx_iv */
    method InitIv(key: seq<byte>, newIv: Block)
      requires Valid() && |key| == 4 * size.Nk()
      modifies roundKey, iv
      ensures roundKey[..] == ExpandedKey(key, size) && IsSchedule(roundKey[..], key, size) && Iv() == newIv
    {
      hide IsSchedule;
      KeyExpansion(roundKey, key, size);
      SetIv(newIv);
    }

    /** AES_ctx_set_iv */
    method SetIv(newIv: Block)
      requires Valid()
      modifies iv
      ensures Iv() == newIv
    {
      for i := 0 to BLOCKLEN
        invariant iv[..i] == newIv[..i]
      {
        iv[i] := newIv[i];
      }
    }

    /** AES_ECB_encrypt */
    method EcbEncrypt(buf: array<byte>)
      requires Valid() && buf != roundKey && buf.Length == BLOCKLEN
      modifies buf
      ensures buf[..] == Cipher(old(buf[..]), roundKey[..], size.Nr())
    {
      hide Cipher;
      assert buf[0..BLOCKLEN] == buf[..];
      AesBlock.Cipher(buf, 0, roundKey, size.Nr());
      assert buf[0..BLOCKLEN] == buf[..];
    }

    /** AES_ECB_decrypt */
    method EcbDecrypt(buf: array<byte>)
      requires Valid() && buf != roundKey && buf.Length == BLOCKLEN
      modifies buf
      ensures buf[..] == InvCipher(old(buf[..]), roundKey[..], size.Nr())
    {
      hide InvCipher;
      assert buf[0..BLOCKLEN] == buf[..];
      AesBlock.InvCipher(buf, 0, roundKey, size.Nr());
      assert buf[0..BLOCKLEN] == buf[..];
    }

    /** AES_CBC_encrypt_buffer. The pointer Iv is an array and an offset: it starts at ctx->Iv and
        from the second block on points at the ciphertext block just written into buf. */
    method CbcEncryptBuffer(buf: array<byte>, length: nat)
      requires Valid() && buf != roundKey && buf != iv
      requires length <= buf.Length && length % BLOCKLEN == 0
      modifies buf, iv
      ensures buf[..length] == CbcEncrypt(Schedule(), old(Iv()), old(buf[..length]))
      ensures buf[length..] == old(buf[length..])
      ensures Iv() == CbcNext(old(Iv()), buf[..length])
      ensures IsCbcEncryption(roundKey[..], size.Nr(), old(Iv()), old(buf[..length]), buf[..length])
      ensures forall k | 0 <= k < 16 :: iv[k] == if length == 0 then old(iv[k]) else buf[length - 16 + k]
    {
      hide Cipher, Xor, CbcEncrypt, IsCbcEncryption;
      ghost var plain, iv0, key := buf[..], Iv(), Schedule();
      var ivArr, ivOff := iv, 0;
      var i := 0;
      CbcEncryptPrefixZero(key, iv0, plain);
      while i < length
        invariant 0 <= i <= length && i % BLOCKLEN == 0
        invariant if i == 0 then ivArr == iv && ivOff == 0 else ivArr == buf && ivOff == i - BLOCKLEN
        invariant ivArr[ivOff..ivOff + BLOCKLEN] == CbcNext(iv0, buf[..i])
        invariant buf[..i] == CbcEncrypt(key, iv0, plain[..i])
        invariant forall k | i <= k < buf.Length :: buf[k] == plain[k]
        invariant Iv() == iv0
      {
        ghost var done := buf[..i];
        ghost var previous := CbcNext(iv0, done);
        assert buf[i..i + BLOCKLEN] == plain[i..i + BLOCKLEN];
        ChainBlock(buf, i, ivArr, ivOff);
        ghost var block := buf[i..i + BLOCKLEN];
        CbcEncryptPrefixStep(key, iv0, plain, i, block);
        hide CbcNext;
        assert buf[..i] == done;
        assert buf[..i + BLOCKLEN] == done + block;
        ivArr, ivOff := buf, i;
        i := i + BLOCKLEN;
      }
      CopyToIv(ivArr, ivOff);
      CbcEncryptIsStandard(roundKey[..], size.Nr(), iv0, plain[..length], buf[..length]);
    }

    /** The two calls of the loop: the block at `off` is chained to the one Iv points at. */
    method ChainBlock(buf: array<byte>, off: nat, ivArr: array<byte>, ivOff: nat)
      requires Valid() && buf != roundKey && buf != iv
      requires off + BLOCKLEN <= buf.Length && ivOff + BLOCKLEN <= ivArr.Length
      requires ivArr == buf ==> ivOff + BLOCKLEN <= off
      modifies buf
      ensures buf[off..off + BLOCKLEN]
           == Schedule().Encrypt(Xor(old(buf[off..off + BLOCKLEN]), old(ivArr[ivOff..ivOff + BLOCKLEN])))
      ensures AesBlock.OnlyChanged(buf, off, BLOCKLEN)
    {
      hide Cipher, Xor;
      XorWithIv(buf, off, ivArr, ivOff);
      AesBlock.Cipher(buf, off, roundKey, size.Nr());
    }

    /** AES_CBC_decrypt_buffer. The ciphertext block is saved before it is overwritten. */
    method CbcDecryptBuffer(buf: array<byte>, length: nat)
      requires Valid() && buf != roundKey && buf != iv
      requires length <= buf.Length && length % BLOCKLEN == 0
      modifies buf, iv
      ensures buf[..length] == CbcDecrypt(Schedule(), old(Iv()), old(buf[..length]))
      ensures buf[length..] == old(buf[length..])
      ensures Iv() == CbcNext(old(Iv()), old(buf[..length]))
      ensures IsCbcDecryption(roundKey[..], size.Nr(), old(Iv()), old(buf[..length]), buf[..length])
      ensures forall k | 0 <= k < 16 :: iv[k] == if length == 0 then old(iv[k]) else old(buf[length - 16 + k])
    {
      hide InvCipher, Xor, CbcDecrypt, CbcNext, IsCbcDecryption;
      ghost var cipher, iv0, key := buf[..], Iv(), Schedule();
      var storeNextIv := new byte[BLOCKLEN];
      CbcDecryptZero(key, iv0, cipher);
      var i := 0;
      while i < length
        invariant 0 <= i <= length && i % BLOCKLEN == 0
        invariant buf[..i] == CbcDecrypt(key, iv0, cipher[..i])
        invariant forall k | i <= k < buf.Length :: buf[k] == cipher[k]
        invariant Iv() == CbcNext(iv0, cipher[..i])
      {
        ghost var done := buf[..i];
        assert buf[i..i + BLOCKLEN] == cipher[i..i + BLOCKLEN];
        UnchainBlock(buf, i, storeNextIv);
        CbcDecryptPrefixStep(key, iv0, cipher, i);
        assert buf[..i] == done;
        assert buf[..i + BLOCKLEN] == done + buf[i..i + BLOCKLEN];
        i := i + BLOCKLEN;
      }
      CbcDecryptIsStandard(roundKey[..], size.Nr(), iv0, cipher[..length], buf[..length]);
      NextByte(iv0, cipher[..length]);
    }

    /** One turn of the loop: the block at `off` is saved, decrypted and unchained from ctx->Iv, and
        what was saved becomes the Iv. */
    method UnchainBlock(buf: array<byte>, off: nat, storeNextIv: array<byte>)
      requires Valid() && buf != roundKey && buf != iv && off + BLOCKLEN <= buf.Length
      requires storeNextIv.Length == BLOCKLEN && storeNextIv != buf && storeNextIv != iv && storeNextIv != roundKey
      modifies buf, iv, storeNextIv
      ensures buf[off..off + BLOCKLEN] == Xor(Schedule().Decrypt(old(buf[off..off + BLOCKLEN])), old(Iv()))
      ensures AesBlock.OnlyChanged(buf, off, BLOCKLEN)
      ensures Iv() == old(buf[off..off + BLOCKLEN])
    {
      hide InvCipher, Xor;
      CopyBlock(storeNextIv, 0, buf, off);
      AesBlock.InvCipher(buf, off, roundKey, size.Nr());
      assert iv[0..BLOCKLEN] == iv[..];
      XorWithIv(buf, off, iv, 0);
      CopyBlock(iv, 0, storeNextIv, 0);
      assert iv[0..BLOCKLEN] == iv[..];
    }

    /** AES_CTR_xcrypt_buffer. One index, bi, is the position in the keystream block and, while
        that block is renewed, the position of the carry. The ghost result lists the blocks given
        to the cipher. */
    method CtrXcryptBuffer(buf: array<byte>, length: nat) returns (ghost fed: seq<Block>)
      requires Valid() && buf != roundKey && buf != iv && length <= buf.Length
      modifies buf, iv
      ensures buf[..length] == Ctr(Schedule(), old(Iv()), old(buf[..length]))
      ensures buf[length..] == old(buf[length..])
      ensures Iv() == Advance(old(Iv()), BlocksUsed(length))
      ensures fed == Counters(old(Iv()), BlocksUsed(length))
      ensures IsCtr(roundKey[..], size.Nr(), old(Iv()), old(buf[..length]), buf[..length])
      ensures Value(Iv()) == (Value(old(Iv())) + (length + 15) / 16) % MODULUS
    {
      hide Cipher, Advance, Counters, BlocksUsed, CtrBlock, CtrByte, IsCtr, Value;
      ghost var plain, iv0, key := buf[..], Iv(), Schedule();
      var buffer := new byte[BLOCKLEN];
      ghost var n := 0; // the number of keystream blocks made so far
      fed := [];
      CountersStart(iv0);
      var i, bi := 0, BLOCKLEN;
      while i < length
        invariant 0 <= i <= length
        invariant 1 <= bi <= BLOCKLEN && i + BLOCKLEN == BLOCKLEN * n + bi
        invariant Iv() == Advance(iv0, n)
        invariant fed == Counters(iv0, n)
        invariant n > 0 ==> buffer[..] == CtrBlock(key, iv0, n - 1)
        invariant forall k | 0 <= k < i :: buf[k] == plain[k] ^ CtrByte(key, iv0, k)
        invariant forall k | i <= k < buf.Length :: buf[k] == plain[k]
      {
        if bi == BLOCKLEN {
          fed := fed + [Iv()];
          bi := RenewKeystream(buffer);
          bi := 0;
          CountersStep(key, iv0, n);
          n := n + 1;
        }
        CtrByteOf(key, iv0, i, n - 1, bi);
        buf[i] := buf[i] ^ buffer[bi];
        i := i + 1;
        bi := bi + 1;
      }
      BlocksUsedIs(length, n, bi);
      CtrIsStandard(roundKey[..], size.Nr(), iv0, plain[..length], buf[..length]);
      AdvanceValue(iv0, n);
    }

    /** What AES_CTR_xcrypt_buffer does when a keystream block is used up. */
    method RenewKeystream(buffer: array<byte>) returns (bi: int)
      requires Valid() && buffer != roundKey && buffer != iv && buffer.Length == BLOCKLEN
      modifies buffer, iv
      ensures buffer[..] == Schedule().Encrypt(old(Iv()))
      ensures Iv() == Increment(old(Iv()))
    {
      hide Cipher, Increment;
      CopyBlock(buffer, 0, iv, 0);
      assert buffer[0..BLOCKLEN] == iv[0..BLOCKLEN] == iv[..];
      AesBlock.Cipher(buffer, 0, roundKey, size.Nr());
      assert buffer[0..BLOCKLEN] == buffer[..];
      bi := IncrementIv();
    }

    /** The carry loop of AES_CTR_xcrypt_buffer; it returns the index of the last byte below 255,
        which goes up by one, or -1 if there is none. */
    method IncrementIv() returns (bi: int)
      requires Valid()
      modifies iv
      ensures Iv() == Increment(old(Iv()))
      ensures -1 <= bi < BLOCKLEN && (bi >= 0 ==> old(iv[bi]) != 255)
      ensures forall k | bi < k < BLOCKLEN :: old(iv[k]) == 255
    {
      ghost var s := Iv();
      bi := BLOCKLEN - 1;
      assert s[..BLOCKLEN] == s;
      while bi >= 0
        invariant -1 <= bi < BLOCKLEN
        invariant iv[..bi + 1] == s[..bi + 1]
        invariant Increment(s) == Increment(s[..bi + 1]) + iv[bi + 1..]
        invariant forall k | bi < k < BLOCKLEN :: s[k] == 255
      {
        ghost var head := s[..bi + 1];
        assert head[|head| - 1] == iv[bi] == s[bi] && head[..|head| - 1] == s[..bi];
        if iv[bi] == 255 {
          iv[bi] := 0;
          bi := bi - 1;
          continue;
        }
        iv[bi] := iv[bi] + 1;
        break;
      }
      assert forall k | 0 <= k < BLOCKLEN :: s[k] == old(iv[k]);
    }

    /** memcpy(ctx->Iv, from, AES_BLOCKLEN) */
    method CopyToIv(from: array<byte>, off: nat)
      requires Valid() && off + BLOCKLEN <= from.Length
      modifies iv
      ensures Iv() == old(from[off..off + BLOCKLEN])
    {
      ghost var block := from[off..off + BLOCKLEN];
      for i := 0 to BLOCKLEN
        invariant iv[..i] == block[..i]
        invariant from == iv ==> iv[..] == old(iv[..])
        invariant from != iv ==> from[..] == old(from[..])
      {
        iv[i] := from[off + i];
      }
    }
  }

  /** memcpy of one block between two different arrays. */
  method CopyBlock(to: array<byte>, toOff: nat, from: array<byte>, off: nat)
    requires to != from && toOff + BLOCKLEN <= to.Length && off + BLOCKLEN <= from.Length
    modifies to
    ensures to[toOff..toOff + BLOCKLEN] == from[off..off + BLOCKLEN]
    ensures AesBlock.OnlyChanged(to, toOff, BLOCKLEN)
  {
    for i := 0 to BLOCKLEN
      invariant to[toOff..toOff + i] == from[off..off + i]
      invariant AesBlock.OnlyChanged(to, toOff, BLOCKLEN)
    {
      to[toOff + i] := from[off + i];
    }
  }

  lemma CountersStart(iv: Block)
    ensures BlocksUsed(0) == 0 && Counters(iv, 0) == [] && Advance(iv, 0) == iv
  {
  }

  lemma CtrByteOf(key: Key, iv: Block, i: nat, m: nat, b: nat)
    requires key.Valid() && b < BLOCKLEN && i == BLOCKLEN * m + b
    ensures CtrByte(key, iv, i) == CtrBlock(key, iv, m)[b]
  {
    hide CtrBlock;
    OffsetInBlocks(m, b);
  }

  lemma CountersStep(key: Key, iv: Block, n: nat)
    requires key.Valid()
    ensures Counters(iv, n + 1) == Counters(iv, n) + [Advance(iv, n)]
    ensures Increment(Advance(iv, n)) == Advance(iv, n + 1)
    ensures CtrBlock(key, iv, n) == key.Encrypt(Advance(iv, n))
  {
    hide Increment, Cipher;
  }

  lemma CbcDecryptZero(key: Key, iv: Block, c: seq<byte>)
    requires key.Valid()
    ensures CbcDecrypt(key, iv, c[..0]) == [] && CbcNext(iv, c[..0]) == iv
  {
  }

  lemma NextByte(iv: Block, c: seq<byte>)
    requires Aligned(c)
    ensures forall k | 0 <= k < 16 :: CbcNext(iv, c)[k] == if |c| == 0 then iv[k] else c[|c| - 16 + k]
  {
  }

  lemma BlocksUsedIs(i: nat, n: nat, bi: nat)
    requires 1 <= bi <= BLOCKLEN && i + BLOCKLEN == BLOCKLEN * n + bi
    ensures BlocksUsed(i) == n == (i + 15) / 16
  {
  }

  /** XorWithIv: buf[i] ^= Iv[i], sixteen times. */
  method XorWithIv(buf: array<byte>, off: nat, ivArr: array<byte>, ivOff: nat)
    requires off + BLOCKLEN <= buf.Length && ivOff + BLOCKLEN <= ivArr.Length
    requires ivArr == buf ==> ivOff + BLOCKLEN <= off
    modifies buf
    ensures buf[off..off + BLOCKLEN] == Xor(old(buf[off..off + BLOCKLEN]), old(ivArr[ivOff..ivOff + BLOCKLEN]))
    ensures AesBlock.OnlyChanged(buf, off, BLOCKLEN)
  {
    ghost var s, t := buf[off..off + BLOCKLEN], ivArr[ivOff..ivOff + BLOCKLEN];
    for i := 0 to BLOCKLEN
      invariant forall k | 0 <= k < BLOCKLEN :: buf[off + k] == if k < i then s[k] ^ t[k] else s[k]
      invariant ivArr[ivOff..ivOff + BLOCKLEN] == t
      invariant AesBlock.OnlyChanged(buf, off, BLOCKLEN)
    {
      assert ivArr[ivOff + i] == t[i];
      buf[off + i] := buf[off + i] ^ ivArr[ivOff + i];
    }
  }

  lemma CbcDecryptPrefixStep(key: Key, iv: Block, c: seq<byte>, i: nat)
    requires key.Valid() && i % BLOCKLEN == 0 && i + BLOCKLEN <= |c|
    ensures CbcDecrypt(key, iv, c[..i + BLOCKLEN])
         == CbcDecrypt(key, iv, c[..i]) + Xor(key.Decrypt(c[i..i + BLOCKLEN]), CbcNext(iv, c[..i]))
    ensures CbcNext(iv, c[..i + BLOCKLEN]) == c[i..i + BLOCKLEN]
  {
    var next := c[i..i + BLOCKLEN];
    CbcDecryptAppend(key, iv, c[..i], next);
    assert c[..i] + next == c[..i + BLOCKLEN];
    assert next[..BLOCKLEN] == next && next[BLOCKLEN..] == [];
    hide InvCipher, Xor;
    assert CbcDecrypt(key, next, next[BLOCKLEN..]) == [];
  }

  lemma CbcEncryptPrefixZero(key: Key, iv: Block, p: seq<byte>)
    requires key.Valid()
    ensures CbcEncrypt(key, iv, p[..0]) == []
  {
  }

  lemma CbcEncryptPrefixStep(key: Key, iv: Block, p: seq<byte>, i: nat, block: Block)
    requires key.Valid() && i % BLOCKLEN == 0 && i + BLOCKLEN <= |p|
    requires block == key.Encrypt(Xor(p[i..i + BLOCKLEN], CbcNext(iv, CbcEncrypt(key, iv, p[..i]))))
    ensures CbcEncrypt(key, iv, p[..i + BLOCKLEN]) == CbcEncrypt(key, iv, p[..i]) + block
    ensures CbcNext(iv, CbcEncrypt(key, iv, p[..i]) + block) == block
  {
    var done, next := CbcEncrypt(key, iv, p[..i]), p[i..i + BLOCKLEN];
    CbcEncryptAppend(key, iv, p[..i], next);
    assert p[..i] + next == p[..i + BLOCKLEN];
    assert next[..BLOCKLEN] == next && next[BLOCKLEN..] == [];
    hide Cipher, Xor;
    assert CbcEncrypt(key, block, next[BLOCKLEN..]) == [];
    assert CbcEncrypt(key, CbcNext(iv, done), next) == block;
  }
}
