/** Cryptor: a string is terminated, padded with zeros to whole blocks and encrypted in CBC mode
    under a key and an Iv that lie side by side. */
module Cryptor {
  import opened Field
  import opened Aes
  import opened Modes
  import opened KeySchedule
  import opened AesContext
  import opened Sp80038a

  const KEYLEN := 16

  datatype CryptResult = Success(data: seq<byte>) | BadKey

  function Zeros(n: nat): seq<byte> {
    seq(n, _ => 0)
  }

  /** Resized with zeros to a whole number of blocks. */
  function PadToBlocks(s: seq<byte>): (r: seq<byte>)
    ensures Aligned(r) && s <= r
  {
    if |s| % BLOCKLEN == 0 then s else s + Zeros(BLOCKLEN - |s| % BLOCKLEN)
  }

  /** What static_cast<uint32_t> leaves of a size. */
  function Uint32(n: nat): (m: nat)
    ensures m <= n && (n % BLOCKLEN == 0 ==> m % BLOCKLEN == 0)
  {
    n % 0x1_0000_0000
  }

  function KeyOf(keyAndIv: seq<byte>): (key: Key)
    requires |keyAndIv| == 2 * KEYLEN
    ensures key.Valid()
  {
    Key(ExpandedKey(keyAndIv[..KEYLEN], Aes128), Aes128.Nr())
  }

  function IvOf(keyAndIv: seq<byte>): Block
    requires |keyAndIv| == 2 * KEYLEN
  {
    keyAndIv[KEYLEN..]
  }

  /** Cryptor::Encrypt */
  function Encrypted(keyAndIv: seq<byte>, data: seq<byte>): CryptResult {
    if |keyAndIv| != 2 * KEYLEN then BadKey
    else
      var padded := PadToBlocks(data + [0]);
      var n := Uint32(|padded|);
      Success(CbcEncrypt(KeyOf(keyAndIv), IvOf(keyAndIv), padded[..n]) + padded[n..])
  }

  /** Cryptor::Decrypt */
  function Decrypted(keyAndIv: seq<byte>, data: seq<byte>): CryptResult {
    if |keyAndIv| != 2 * KEYLEN then BadKey
    else
      var padded := PadToBlocks(data);
      var n := Uint32(|padded|);
      Success(CbcDecrypt(KeyOf(keyAndIv), IvOf(keyAndIv), padded[..n]) + padded[n..])
  }

  // ----- What that is byte by byte.

  /** The data, then zeros. */
  function Padded(data: seq<byte>, size: nat): (r: seq<byte>)
    requires |data| <= size
    ensures |r| == size
  {
    seq(size, i requires 0 <= i < size => if i < |data| then data[i] else 0)
  }

  /** The data and at least one zero, rounded up to whole blocks, in CBC mode under AES-128 with the
      key keyAndIv[..16] and the Iv keyAndIv[16..]; of a size from 2^32 on the length argument keeps
      the remainder only, so that the bytes from there on stay plain. */
  predicate IsEncrypted(keyAndIv: seq<byte>, data: seq<byte>, out: seq<byte>)
    requires |keyAndIv| == 32
  {
    var size := (|data| + 16) / 16 * 16;
    var n := size % 0x1_0000_0000;
    && |out| == size
    && IsCbcEncryption(ExpandedKey(keyAndIv[..16], Aes128), 10, keyAndIv[16..], Padded(data, size)[..n], out[..n])
    && forall i | n <= i < size :: out[i] == Padded(data, size)[i]
  }

  /** The data, rounded up to whole blocks with zeros, decrypted under the same key and Iv. */
  predicate IsDecrypted(keyAndIv: seq<byte>, data: seq<byte>, out: seq<byte>)
    requires |keyAndIv| == 32
  {
    var size := (|data| + 15) / 16 * 16;
    var n := size % 0x1_0000_0000;
    && |out| == size
    && IsCbcDecryption(ExpandedKey(keyAndIv[..16], Aes128), 10, keyAndIv[16..], Padded(data, size)[..n], out[..n])
    && forall i | n <= i < size :: out[i] == Padded(data, size)[i]
  }

  lemma PaddedIs(data: seq<byte>)
    ensures PadToBlocks(data) == Padded(data, (|data| + 15) / 16 * 16)
    ensures PadToBlocks(data + [0]) == Padded(data, (|data| + 16) / 16 * 16)
  {
  }

  lemma EncryptedIsStandard(keyAndIv: seq<byte>, data: seq<byte>, out: seq<byte>)
    requires |keyAndIv| == 32
    ensures IsEncrypted(keyAndIv, data, out) <==> Encrypted(keyAndIv, data) == Success(out)
  {
    hide ExpandedKey, CbcEncrypt, PadToBlocks, Padded, IsCbcEncryption;
    PaddedIs(data);
    var size := (|data| + 16) / 16 * 16;
    EncryptedHead(ExpandedKey(keyAndIv[..16], Aes128), keyAndIv[16..], Padded(data, size), size % 0x1_0000_0000, out);
  }

  lemma EncryptedHead(w: seq<byte>, iv: Block, padded: seq<byte>, n: nat, out: seq<byte>)
    requires |w| == 176 && n <= |padded| && n % 16 == 0
    ensures
      (|out| == |padded| && IsCbcEncryption(w, 10, iv, padded[..n], out[..n])
       && forall i | n <= i < |padded| :: out[i] == padded[i])
      <==> out == CbcEncrypt(Key(w, 10), iv, padded[..n]) + padded[n..]
  {
    hide CbcEncrypt, IsCbcEncryption;
    if |out| == |padded| {
      CbcEncryptIsStandard(w, 10, iv, padded[..n], out[..n]);
      SplitEqual(out, n, CbcEncrypt(Key(w, 10), iv, padded[..n]), padded[n..]);
    }
  }

  lemma DecryptedIsStandard(keyAndIv: seq<byte>, data: seq<byte>, out: seq<byte>)
    requires |keyAndIv| == 32
    ensures IsDecrypted(keyAndIv, data, out) <==> Decrypted(keyAndIv, data) == Success(out)
  {
    hide ExpandedKey, CbcDecrypt, PadToBlocks, Padded, IsCbcDecryption;
    PaddedIs(data);
    var size := (|data| + 15) / 16 * 16;
    DecryptedHead(ExpandedKey(keyAndIv[..16], Aes128), keyAndIv[16..], Padded(data, size), size % 0x1_0000_0000, out);
  }

  lemma DecryptedHead(w: seq<byte>, iv: Block, padded: seq<byte>, n: nat, out: seq<byte>)
    requires |w| == 176 && n <= |padded| && n % 16 == 0
    ensures
      (|out| == |padded| && IsCbcDecryption(w, 10, iv, padded[..n], out[..n])
       && forall i | n <= i < |padded| :: out[i] == padded[i])
      <==> out == CbcDecrypt(Key(w, 10), iv, padded[..n]) + padded[n..]
  {
    hide CbcDecrypt, IsCbcDecryption;
    if |out| == |padded| {
      CbcDecryptIsStandard(w, 10, iv, padded[..n], out[..n]);
      SplitEqual(out, n, CbcDecrypt(Key(w, 10), iv, padded[..n]), padded[n..]);
    }
  }

  lemma SplitEqual(s: seq<byte>, n: nat, a: seq<byte>, b: seq<byte>)
    requires n <= |s| && |a| == n && |b| == |s| - n
    ensures s == a + b <==> s[..n] == a && forall i | n <= i < |s| :: s[i] == b[i - n]
  {
    if s == a + b {
      assert s[..n] == a;
    }
    if s[..n] == a && forall i | n <= i < |s| :: s[i] == b[i - n] {
      assert s[n..] == b && s == s[..n] + s[n..];
    }
  }

  /** Below 2^32 bytes every block is encrypted: block j is AES-128 of the padded data block j xor
      the output block before it, or the Iv. */
  lemma EncryptedBlock(keyAndIv: seq<byte>, data: seq<byte>, out: seq<byte>, j: nat)
    requires |keyAndIv| == 32 && IsEncrypted(keyAndIv, data, out)
    requires (|data| + 16) / 16 * 16 < 0x1_0000_0000 && 16 * j < |out|
    ensures
      var x := seq(16, k requires 0 <= k < 16 =>
        (if 16 * j + k < |data| then data[16 * j + k] else 0)
        ^ (if j == 0 then keyAndIv[16 + k] else out[16 * (j - 1) + k]));
      out[16 * j..16 * j + 16] == Cipher(x, ExpandedKey(keyAndIv[..16], Aes128), 10)
  {
    hide ExpandedKey, Cipher;
    var size := (|data| + 16) / 16 * 16;
    var p, iv := Padded(data, size), keyAndIv[16..];
    assert p[..size] == p && out[..size] == out;
    var x := seq(16, k requires 0 <= k < 16 =>
      (if 16 * j + k < |data| then data[16 * j + k] else 0)
      ^ (if j == 0 then keyAndIv[16 + k] else out[16 * (j - 1) + k]));
    assert x == Chained(iv, p, out, j);
    assert j < |p| / 16;
  }

  /** The context of both methods: the key from the first half, the Iv from the second. */
  method NewContext(keyAndIv: seq<byte>) returns (ctx: AesCtx)
    requires |keyAndIv| == 2 * KEYLEN
    ensures ctx.Valid() && fresh(ctx.roundKey) && fresh(ctx.iv)
    ensures ctx.Schedule() == KeyOf(keyAndIv) && ctx.Iv() == IvOf(keyAndIv)
  {
    hide ExpandedKey, IsSchedule;
    ctx := new AesCtx(Aes128);
    ctx.InitIv(keyAndIv[..KEYLEN], keyAndIv[KEYLEN..]);
  }

  method Encrypt(keyAndIv: seq<byte>, data: seq<byte>) returns (r: CryptResult)
    ensures r == Encrypted(keyAndIv, data)
    ensures if |keyAndIv| == 32 then r.Success? && IsEncrypted(keyAndIv, data, r.data) else r == BadKey
  {
    hide CbcEncrypt, PadToBlocks, Uint32, KeyOf, IvOf, IsEncrypted;
    if |keyAndIv| != 2 * KEYLEN {
      return BadKey;
    }
    var padded := PadToBlocks(data + [0]);
    var out := EncryptInPlace(keyAndIv, padded, Uint32(|padded|));
    r := Success(out);
    EncryptedIsStandard(keyAndIv, data, out);
  }

  /** The array of Encrypt, whose first n bytes are encrypted in place. */
  method EncryptInPlace(keyAndIv: seq<byte>, padded: seq<byte>, n: nat) returns (out: seq<byte>)
    requires |keyAndIv| == 2 * KEYLEN && n <= |padded| && Aligned(padded[..n])
    ensures out == CbcEncrypt(KeyOf(keyAndIv), IvOf(keyAndIv), padded[..n]) + padded[n..]
  {
    hide CbcEncrypt, CbcNext, KeyOf, IvOf, IsCbcEncryption;
    var buf := new byte[|padded|](i requires 0 <= i < |padded| => padded[i]);
    assert buf[..] == padded;
    var ctx := NewContext(keyAndIv);
    assert buf[..n] == padded[..n] && buf[n..] == padded[n..];
    ctx.CbcEncryptBuffer(buf, n);
    assert buf[..] == buf[..n] + buf[n..];
    out := buf[..];
  }

  method Decrypt(keyAndIv: seq<byte>, data: seq<byte>) returns (r: CryptResult)
    ensures r == Decrypted(keyAndIv, data)
    ensures if |keyAndIv| == 32 then r.Success? && IsDecrypted(keyAndIv, data, r.data) else r == BadKey
  {
    hide CbcDecrypt, PadToBlocks, Uint32, KeyOf, IvOf, IsDecrypted;
    if |keyAndIv| != 2 * KEYLEN {
      return BadKey;
    }
    var padded := PadToBlocks(data);
    var result := DecryptInPlace(keyAndIv, padded, Uint32(|padded|));
    r := Success(result);
    DecryptedIsStandard(keyAndIv, data, result);
  }

  /** The array of Decrypt, whose first n bytes are decrypted in place. */
  method DecryptInPlace(keyAndIv: seq<byte>, padded: seq<byte>, n: nat) returns (result: seq<byte>)
    requires |keyAndIv| == 2 * KEYLEN && n <= |padded| && Aligned(padded[..n])
    ensures result == CbcDecrypt(KeyOf(keyAndIv), IvOf(keyAndIv), padded[..n]) + padded[n..]
  {
    hide CbcDecrypt, CbcNext, KeyOf, IvOf, IsCbcDecryption;
    var buf := new byte[|padded|](i requires 0 <= i < |padded| => padded[i]);
    assert buf[..] == padded;
    var ctx := NewContext(keyAndIv);
    assert buf[..n] == padded[..n] && buf[n..] == padded[n..];
    ctx.CbcDecryptBuffer(buf, n);
    assert buf[..] == buf[..n] + buf[n..];
    result := buf[..];
  }

  /** Decryption gives the data back, terminated by a zero and padded with zeros; whatever the
      length, also beyond the 2^32 bytes that the length argument can express. */
  lemma DecryptedEncrypted(keyAndIv: seq<byte>, data: seq<byte>)
    requires |keyAndIv| == 2 * KEYLEN
    ensures
      Decrypted(keyAndIv, Encrypted(keyAndIv, data).data) == Success(PadToBlocks(data + [0]))
  {
    hide ExpandedKey, CbcEncrypt, CbcDecrypt, KeyOf;
    var key, iv, padded := KeyOf(keyAndIv), IvOf(keyAndIv), PadToBlocks(data + [0]);
    var n := Uint32(|padded|);
    var c := CbcEncrypt(key, iv, padded[..n]);
    var out := c + padded[n..];
    assert PadToBlocks(out) == out && out[..n] == c && out[n..] == padded[n..];
    CbcDecryptEncrypt(key, iv, padded[..n]);
    assert padded[..n] + padded[n..] == padded;
  }
}
