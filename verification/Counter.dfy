/** The counter of the CTR mode: a block read as a big-endian number, incremented modulo
    2^128 (section 6.5 and appendix B.1 of NIST SP 800-38A). */
module Counter {
  import opened Field
  import Aes

  /** 2^128, the number of blocks. */
  const MODULUS: nat := 0x1_0000_0000_0000_0000_0000_0000_0000_0000

  function Pow256(n: nat): (p: nat)
    ensures p > 0
  {
    if n == 0 then 1 else 256 * Pow256(n - 1)
  }

  lemma Pow256OfBlock()
    ensures Pow256(Aes.BLOCKLEN) == MODULUS
  {
    assert Pow256(4) == 0x1_0000_0000;
    assert Pow256(8) == 0x1_0000_0000_0000_0000;
    assert Pow256(12) == 0x1_0000_0000_0000_0000_0000_0000;
  }

  /** The number a byte string stands for, most significant byte first. */
  function Value(s: seq<byte>): nat {
    if s == [] then 0 else 256 * Value(s[..|s| - 1]) + s[|s| - 1] as nat
  }

  lemma {:induction false} ValueBound(s: seq<byte>)
    ensures Value(s) < Pow256(|s|)
  {
    if s != [] {
      ValueBound(s[..|s| - 1]);
    }
  }

  /** The first byte is the most significant one. */
  lemma {:induction false} ValueFromFront(s: seq<byte>)
    requires s != []
    ensures Value(s) == s[0] as nat * Pow256(|s| - 1) + Value(s[1..])
  {
    hide Value, Pow256;
    ValueOfLast(s);
    if |s| > 1 {
      var init, last := s[..|s| - 1], s[|s| - 1];
      ValueFromFront(init);
      ValueOfLast(s[1..]);
      assert init[1..] == s[1..][..|s| - 2];
      NextPower(|s| - 2);
      Scaled(s[0] as nat, Pow256(|s| - 2), Value(init[1..]));
    } else {
      NoBytes();
      assert s[..0] == [] && s[1..] == [];
    }
  }

  lemma ValueOfLast(s: seq<byte>)
    requires s != []
    ensures Value(s) == 256 * Value(s[..|s| - 1]) + s[|s| - 1] as nat
  {
  }

  lemma NextPower(n: nat)
    ensures Pow256(n + 1) == 256 * Pow256(n)
  {
  }

  lemma NoBytes()
    ensures Value([]) == 0 && Pow256(0) == 1
  {
  }

  lemma Scaled(x: nat, p: nat, v: nat)
    ensures 256 * (x * p + v) == x * (256 * p) + 256 * v
  {
  }

  lemma {:induction false} EqualValues(a: seq<byte>, b: seq<byte>)
    requires |a| == |b| && Value(a) == Value(b)
    ensures a == b
  {
    if a != [] {
      var n := |a| - 1;
      EqualBytes(a[n], b[n]);
      EqualValues(a[..n], b[..n]);
      assert a == a[..n] + [a[n]] && b == b[..n] + [b[n]];
    }
  }

  lemma EqualBytes(x: byte, y: byte)
    ensures x as nat == y as nat ==> x == y
  {
  }

  // ----- The carry loop.

  /** Bytes of 255 at the end become 0, the one before them goes up by one. */
  function Increment(s: seq<byte>): (t: seq<byte>)
    ensures |t| == |s|
  {
    if s == [] then []
    else if s[|s| - 1] == 255 then Increment(s[..|s| - 1]) + [0]
    else s[..|s| - 1] + [s[|s| - 1] + 1]
  }

  lemma {:induction false} IncrementAddsOne(s: seq<byte>)
    ensures Value(Increment(s)) == if Value(s) + 1 == Pow256(|s|) then 0 else Value(s) + 1
  {
    if s != [] {
      var init, last := s[..|s| - 1], s[|s| - 1];
      ValueBound(init);
      if last == 255 {
        IncrementAddsOne(init);
        assert Increment(s)[..|s| - 1] == Increment(init);
      } else {
        assert Increment(s)[..|s| - 1] == init;
        ByteSuccessor(last);
      }
    }
  }

  lemma ByteSuccessor(b: byte)
    requires b != 255
    ensures (b + 1) as nat == b as nat + 1
  {
  }

  // ----- Counting on from a block.

  lemma BlockValueBound(a: Aes.Block)
    ensures Value(a) < MODULUS
  {
    ValueBound(a);
    Pow256OfBlock();
  }

  lemma IncrementBlock(a: Aes.Block)
    ensures Value(Increment(a)) == if Value(a) + 1 == MODULUS then 0 else Value(a) + 1
  {
    hide Value, Increment, Pow256;
    Pow256OfBlock();
    IncrementAddsOne(a);
  }

  /** The block n carry loops after iv. */
  function Advance(iv: Aes.Block, n: nat): Aes.Block {
    if n == 0 then iv else Increment(Advance(iv, n - 1))
  }

  /** n carry loops add n modulo 2^128, the wrap from 2^128 - 1 to 0 included. */
  lemma {:induction false} AdvanceValue(iv: Aes.Block, n: nat)
    ensures Value(Advance(iv, n)) == (Value(iv) + n) % MODULUS
  {
    BlockValueBound(iv);
    if n > 0 {
      hide Increment, Value;
      AdvanceValue(iv, n - 1);
      IncrementBlock(Advance(iv, n - 1));
      RemainderStep(Value(iv) + n - 1);
    }
  }

  lemma RemainderStep(x: nat)
    ensures (x + 1) % MODULUS == if x % MODULUS + 1 == MODULUS then 0 else x % MODULUS + 1
  {
  }

  lemma {:induction false} AdvanceAdvance(iv: Aes.Block, m: nat, n: nat)
    ensures Advance(Advance(iv, m), n) == Advance(iv, m + n)
  {
    if n > 0 {
      AdvanceAdvance(iv, m, n - 1);
    }
  }

  lemma Remainder(x: nat, q: int, r: nat)
    requires x == q * MODULUS + r && r < MODULUS
    ensures x % MODULUS == r
  {
  }

  lemma EqualRemainders(x: nat, y: nat)
    requires x <= y
    ensures x % MODULUS == y % MODULUS <==> (y - x) % MODULUS == 0
  {
    if x % MODULUS == y % MODULUS {
      Remainder(y - x, y / MODULUS - x / MODULUS, 0);
    }
    if (y - x) % MODULUS == 0 {
      Remainder(y, x / MODULUS + (y - x) / MODULUS, x % MODULUS);
    }
  }

  /** Two counters of one run are the same block exactly when they are a multiple of 2^128
      steps apart. */
  lemma AdvanceRepeats(iv: Aes.Block, m: nat, n: nat)
    requires m <= n
    ensures Advance(iv, m) == Advance(iv, n) <==> (n - m) % MODULUS == 0
  {
    AdvanceValue(iv, m);
    AdvanceValue(iv, n);
    EqualRemainders(Value(iv) + m, Value(iv) + n);
    if (n - m) % MODULUS == 0 {
      EqualValues(Advance(iv, m), Advance(iv, n));
    }
  }
}
