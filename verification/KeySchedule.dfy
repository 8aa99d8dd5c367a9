/** Key expansion: the word recurrence of section 5.2 of FIPS 197, the proof that it can be
    run backwards from any Nk consecutive words, and the in-place loop of aes.c. */
module KeySchedule {
  import opened Field
  import opened SBoxes
  import Aes

  /** The three compile-time configurations of aes.c. */
  datatype KeySize = Aes128 | Aes192 | Aes256 {
    /** Key length in words. */
    function Nk(): (nk: nat)
      ensures 4 <= nk <= 8
    {
      match this
      case Aes128 => 4
      case Aes192 => 6
      case Aes256 => 8
    }

    /** Number of rounds. */
    function Nr(): (nr: nat) {
      match this
      case Aes128 => 10
      case Aes192 => 12
      case Aes256 => 14
    }

    /** Length of the expanded key in words. */
    function Words(): (words: nat)
      ensures words > Nk()
    {
      4 * (Nr() + 1)
    }
  }

  type Word = w: seq<byte> | |w| == 4 witness [0, 0, 0, 0]

  // ----- The recurrence.

  /** x^n in GF(2^8). */
  function XPower(n: nat): byte {
    if n == 0 then 1 else Times(XPower(n - 1), 2)
  }

  function RotWord(w: Word): Word {
    [w[1], w[2], w[3], w[0]]
  }

  function SubWord(w: Word): Word {
    [SBox(w[0]), SBox(w[1]), SBox(w[2]), SBox(w[3])]
  }

  /** What word i is word i - nk plus: a function of word i - 1. */
  function Temp(w: Word, nk: nat, i: nat): Word
    requires 0 < nk <= i
  {
    if i % nk == 0 then
      var t := SubWord(RotWord(w));
      [t[0] ^ XPower(i / nk - 1), t[1], t[2], t[3]]
    else if nk > 6 && i % nk == 4 then
      SubWord(w)
    else
      w
  }

  /** Word i of the schedule of a key of nk words. */
  function ScheduleWord(key: seq<byte>, nk: nat, i: nat): Word
    requires 0 < nk && |key| == 4 * nk
  {
    if i < nk then
      key[4 * i..4 * i + 4]
    else
      Aes.Xor(ScheduleWord(key, nk, i - nk), Temp(ScheduleWord(key, nk, i - 1), nk, i))
  }

  function ExpandedKey(key: seq<byte>, size: KeySize): (w: seq<byte>)
    requires |key| == 4 * size.Nk()
    ensures |w| == 4 * size.Words()
  {
    seq(4 * size.Words(), k requires 0 <= k < 4 * size.Words() => ScheduleWord(key, size.Nk(), k / 4)[k % 4])
  }

  // ----- Running the schedule backwards.

  /** nk consecutive words, the first of them word i. */
  function Window(key: seq<byte>, nk: nat, i: nat): (win: seq<Word>)
    requires 0 < nk && |key| == 4 * nk
    ensures |win| == nk
  {
    seq<Word>(nk, j requires 0 <= j < nk => ScheduleWord(key, nk, i + j))
  }

  /** The word before the words i .. i + nk - 1. */
  function WordBefore(win: seq<Word>, nk: nat, i: nat): Word
    requires 2 <= nk == |win| && 1 <= i
  {
    Aes.Xor(win[nk - 1], Temp(win[nk - 2], nk, i + nk - 1))
  }

  /** From the words i .. i + nk - 1, the words i - 1 .. i + nk - 2. */
  function StepBack(win: seq<Word>, nk: nat, i: nat): seq<Word>
    requires 2 <= nk == |win| && 1 <= i
  {
    [WordBefore(win, nk, i)] + win[..nk - 1]
  }

  function Rewind(win: seq<Word>, nk: nat, i: nat): (first: seq<Word>)
    requires 2 <= nk == |win|
    ensures |first| == nk
    decreases i
  {
    if i == 0 then win else Rewind(StepBack(win, nk, i), nk, i - 1)
  }

  function KeyOfWords(words: seq<Word>): (key: seq<byte>)
    ensures |key| == 4 * |words|
  {
    seq(4 * |words|, k requires 0 <= k < 4 * |words| => words[k / 4][k % 4])
  }

  /** The only key whose schedule has the words `win` from word i on. */
  function KeyBehind(win: seq<Word>, nk: nat, i: nat): (key: seq<byte>)
    requires 2 <= nk == |win|
    ensures |key| == 4 * nk
  {
    KeyOfWords(Rewind(win, nk, i))
  }

  lemma KeyWords(key: seq<byte>, nk: nat)
    requires 0 < nk && |key| == 4 * nk
    ensures KeyOfWords(Window(key, nk, 0)) == key
  {
    forall k | 0 <= k < 4 * nk ensures KeyOfWords(Window(key, nk, 0))[k] == key[k] {
      assert ScheduleWord(key, nk, k / 4) == key[4 * (k / 4)..4 * (k / 4) + 4];
    }
  }

  lemma WordsOfKey(words: seq<Word>)
    requires 0 < |words|
    ensures Window(KeyOfWords(words), |words|, 0) == words
  {
    var key, nk := KeyOfWords(words), |words|;
    forall j | 0 <= j < nk ensures Window(key, nk, 0)[j] == words[j] {
      assert ScheduleWord(key, nk, j) == key[4 * j..4 * j + 4] == words[j];
    }
  }

  lemma WordXorTwice(a: Word, b: Word)
    ensures Aes.Xor(Aes.Xor(a, b), b) == a
  {
    Aes.XorTwice(a, b);
  }

  lemma StepBackFromWindow(key: seq<byte>, nk: nat, i: nat)
    requires 2 <= nk && |key| == 4 * nk && 1 <= i
    ensures StepBack(Window(key, nk, i), nk, i) == Window(key, nk, i - 1)
  {
    hide Temp;
    var win, n := Window(key, nk, i), i + nk - 1;
    var t := Temp(ScheduleWord(key, nk, n - 1), nk, n);
    assert win[nk - 1] == ScheduleWord(key, nk, n) == Aes.Xor(ScheduleWord(key, nk, i - 1), t);
    assert win[nk - 2] == ScheduleWord(key, nk, n - 1);
    WordXorTwice(ScheduleWord(key, nk, i - 1), t);
    hide ScheduleWord, Aes.Xor;
    var back, before := StepBack(win, nk, i), Window(key, nk, i - 1);
    assert back[0] == WordBefore(win, nk, i) == ScheduleWord(key, nk, i - 1);
    forall j | 0 <= j < nk ensures back[j] == before[j] {
      assert j == 0 || back[j] == win[j - 1];
    }
  }

  lemma StepForward(key: seq<byte>, win: seq<Word>, nk: nat, i: nat)
    requires 2 <= nk == |win| && |key| == 4 * nk && 1 <= i
    requires Window(key, nk, i - 1) == StepBack(win, nk, i)
    ensures Window(key, nk, i) == win
  {
    hide Temp;
    var back, n := StepBack(win, nk, i), i + nk - 1;
    forall j | 0 <= j < nk - 1 ensures Window(key, nk, i)[j] == win[j] {
      assert Window(key, nk, i - 1)[j + 1] == back[j + 1] == win[j];
    }
    assert Window(key, nk, i - 1)[0] == back[0];
    assert ScheduleWord(key, nk, n - 1) == Window(key, nk, i)[nk - 2] == win[nk - 2];
    WordXorTwice(win[nk - 1], Temp(win[nk - 2], nk, n));
    assert Window(key, nk, i)[nk - 1] == ScheduleWord(key, nk, n);
  }

  /** Any nk consecutive words of a schedule fix the key, hence the whole schedule, and every
      choice of nk words occurs: rewinding is a two-sided inverse of expanding. */
  lemma {:induction false} WindowDeterminesKey(key: seq<byte>, win: seq<Word>, nk: nat, i: nat)
    requires 2 <= nk == |win| && |key| == 4 * nk
    ensures Window(key, nk, i) == win <==> key == KeyBehind(win, nk, i)
    decreases i
  {
    if i == 0 {
      KeyWords(key, nk);
      WordsOfKey(win);
    } else {
      StepBackFromWindow(key, nk, i);
      WindowDeterminesKey(key, StepBack(win, nk, i), nk, i - 1);
      if key == KeyBehind(win, nk, i) {
        StepForward(key, win, nk, i);
      }
    }
  }

  function BlockWords(b: Aes.Block): (words: seq<Word>)
    ensures |words| == 4
  {
    seq(4, j requires 0 <= j < 4 => b[4 * j..4 * j + 4])
  }

  lemma BytesOfBlockWords(b: Aes.Block)
    ensures KeyOfWords(BlockWords(b)) == b
  {
  }

  lemma KeyOfWordsInjective(u: seq<Word>, v: seq<Word>)
    requires |u| == |v| && KeyOfWords(u) == KeyOfWords(v)
    ensures u == v
  {
    forall j | 0 <= j < |u| ensures u[j] == v[j] {
      forall m | 0 <= m < 4 ensures u[j][m] == v[j][m] {
        assert KeyOfWords(u)[4 * j + m] == u[j][m];
        assert KeyOfWords(v)[4 * j + m] == v[j][m];
      }
    }
  }

  lemma RoundKeyBytes(key: seq<byte>, r: nat)
    requires |key| == 16 && r <= Aes128.Nr()
    ensures ExpandedKey(key, Aes128)[16 * r..16 * r + 16] == KeyOfWords(Window(key, 4, 4 * r))
  {
  }

  /** With a key of four words, each single round key fixes the cipher key, and every block is
      round key r of exactly one key. */
  lemma RoundKeyDeterminesKey(key: seq<byte>, b: Aes.Block, r: nat)
    requires |key| == 16 && r <= Aes128.Nr()
    ensures ExpandedKey(key, Aes128)[16 * r..16 * r + 16] == b <==> key == KeyBehind(BlockWords(b), 4, 4 * r)
  {
    RoundKeyBytes(key, r);
    BytesOfBlockWords(b);
    hide ExpandedKey, KeyOfWords, BlockWords, KeyBehind, Window;
    WindowDeterminesKey(key, BlockWords(b), 4, 4 * r);
    if KeyOfWords(Window(key, 4, 4 * r)) == b {
      assert |Window(key, 4, 4 * r)| == 4;
      KeyOfWordsInjective(Window(key, 4, 4 * r), BlockWords(b));
    }
  }

  // ----- The table of round constants.

  /** The table `Rcon`. */
  function Rcon(i: nat): byte
    requires i <= 10
  {
    [0x8d, 0x01, 0x02, 0x04, 0x08, 0x10, 0x20, 0x40, 0x80, 0x1b, 0x36][i]
  }

  /** Rcon[i] is x^(i - 1), also at the unused index 0. */
  lemma RconIsPower(i: nat)
    requires i <= 10
    ensures i == 0 ==> Times(Rcon(i), 2) == 1
    ensures i > 0 ==> Rcon(i) == XPower(i - 1)
  {
    if i > 1 {
      RconIsPower(i - 1);
    }
  }

  lemma RconInBounds(size: KeySize, i: nat)
    requires size.Nk() <= i < size.Words()
    ensures 1 <= i / size.Nk() <= 10
  {
    match size
    case Aes128 =>
    case Aes192 =>
    case Aes256 =>
  }

  // ----- The schedule byte by byte: equations on the expanded key alone.

  /** Byte j of what makes word i out of word i - Nk, from word i - 1. */
  function AddedByte(before: Word, size: KeySize, i: nat, j: nat): byte
    requires size.Nk() <= i < size.Words() && j < 4
  {
    RconInBounds(size, i);
    if i % size.Nk() == 0 then SBox(before[(j + 1) % 4]) ^ (if j == 0 then Rcon(i / size.Nk()) else 0)
    else if size.Nk() == 8 && i % 8 == 4 then SBox(before[j])
    else before[j]
  }

  function Added(w: seq<byte>, size: KeySize, i: nat, j: nat): byte
    requires size.Nk() <= i < size.Words() && j < 4 && |w| == 4 * size.Words()
  {
    AddedByte(w[4 * (i - 1)..4 * i], size, i, j)
  }

  predicate IsSchedule(w: seq<byte>, key: seq<byte>, size: KeySize)
    requires |key| == 4 * size.Nk()
  {
    && |w| == 4 * size.Words()
    && (forall k | 0 <= k < |key| :: w[k] == key[k])
    && (forall k | 4 * size.Nk() <= k < |w| :: w[k] == w[k - 4 * size.Nk()] ^ Added(w, size, k / 4, k % 4))
  }

  /** Key lengths and round counts of the three configurations, and the bytes the expanded key
      takes. */
  lemma Sizes(size: KeySize)
    ensures 4 * size.Nk() == (match size case Aes128 => 16 case Aes192 => 24 case Aes256 => 32)
    ensures size.Nr() == (match size case Aes128 => 10 case Aes192 => 12 case Aes256 => 14)
    ensures 4 * size.Words() == (match size case Aes128 => 176 case Aes192 => 208 case Aes256 => 240)
  {
  }

  lemma TempByte(word: Word, size: KeySize, i: nat, j: nat)
    requires size.Nk() <= i < size.Words() && j < 4
    ensures Temp(word, size.Nk(), i)[j] == AddedByte(word, size, i, j)
  {
    hide XPower, Rcon, SBox, Temp;
    RconInBounds(size, i);
    RconIsPower(i / size.Nk());
    assert size.Nk() > 6 <==> size.Nk() == 8;
    hide KeySize.Nk, KeySize.Nr, KeySize.Words;
    var nk := size.Nk();
    if i % nk == 0 {
      FirstTempByte(word, nk, i, j);
    } else {
      OtherTempByte(word, nk, i, j);
    }
  }

  lemma FirstTempByte(word: Word, nk: nat, i: nat, j: nat)
    requires 0 < nk <= i && i % nk == 0 && j < 4
    ensures Temp(word, nk, i)[j] == SBox(word[(j + 1) % 4]) ^ (if j == 0 then XPower(i / nk - 1) else 0)
  {
    hide XPower, SBox, SubWord, RotWord;
    RotatedByte(word, j);
    XorZero(SBox(word[(j + 1) % 4]));
  }

  lemma OtherTempByte(word: Word, nk: nat, i: nat, j: nat)
    requires 0 < nk <= i && i % nk != 0 && j < 4
    ensures Temp(word, nk, i)[j] == if nk > 6 && i % nk == 4 then SBox(word[j]) else word[j]
  {
    hide SBox, SubWord, RotWord;
    RotatedByte(word, j);
  }

  lemma RotatedByte(word: Word, j: nat)
    requires j < 4
    ensures SubWord(RotWord(word))[j] == SBox(word[(j + 1) % 4]) && SubWord(word)[j] == SBox(word[j])
  {
    hide SBox;
  }

  lemma XorZero(x: byte)
    ensures x ^ 0 == x
  {
  }

  lemma ExpandedAt(key: seq<byte>, size: KeySize, i: nat, j: nat)
    requires |key| == 4 * size.Nk() && i < size.Words() && j < 4
    ensures ExpandedKey(key, size)[4 * i + j] == ScheduleWord(key, size.Nk(), i)[j]
  {
    hide ScheduleWord;
    assert (4 * i + j) / 4 == i && (4 * i + j) % 4 == j;
  }

  lemma WordOfExpanded(key: seq<byte>, size: KeySize, i: nat)
    requires |key| == 4 * size.Nk() && i < size.Words()
    ensures ExpandedKey(key, size)[4 * i..4 * i + 4] == ScheduleWord(key, size.Nk(), i)
  {
    hide ScheduleWord;
  }

  lemma ScheduleStep(key: seq<byte>, nk: nat, i: nat, j: nat)
    requires 0 < nk <= i && |key| == 4 * nk && j < 4
    ensures
      ScheduleWord(key, nk, i)[j]
      == ScheduleWord(key, nk, i - nk)[j] ^ Temp(ScheduleWord(key, nk, i - 1), nk, i)[j]
  {
    hide Temp;
  }

  lemma ExpandedKeyByte(key: seq<byte>, size: KeySize, k: nat)
    requires |key| == 4 * size.Nk() && k < |key|
    ensures ExpandedKey(key, size)[k] == key[k]
  {
    assert ScheduleWord(key, size.Nk(), k / 4) == key[4 * (k / 4)..4 * (k / 4) + 4];
  }

  lemma ExpandedIsSchedule(key: seq<byte>, size: KeySize)
    requires |key| == 4 * size.Nk()
    ensures IsSchedule(ExpandedKey(key, size), key, size)
  {
    hide ExpandedKey, Added, KeySize.Nk, KeySize.Nr, KeySize.Words;
    var w, nk := ExpandedKey(key, size), size.Nk();
    forall k | 0 <= k < |key| ensures w[k] == key[k] {
      ExpandedKeyByte(key, size, k);
    }
    forall k | 4 * nk <= k < |w| ensures w[k] == w[k - 4 * nk] ^ Added(w, size, k / 4, k % 4) {
      var i, j := k / 4, k % 4;
      assert k == 4 * i + j && k - 4 * nk == 4 * (i - nk) + j;
      ExpandedByte(key, size, i, j);
    }
  }

  lemma ExpandedByte(key: seq<byte>, size: KeySize, i: nat, j: nat)
    requires |key| == 4 * size.Nk() && size.Nk() <= i < size.Words() && j < 4
    ensures
      var w := ExpandedKey(key, size);
      w[4 * i + j] == w[4 * (i - size.Nk()) + j] ^ Added(w, size, i, j)
  {
    hide Temp, ExpandedKey, ScheduleWord, AddedByte, KeySize.Nk, KeySize.Nr, KeySize.Words;
    var w, nk := ExpandedKey(key, size), size.Nk();
    WordOfExpanded(key, size, i - 1);
    TempByte(ScheduleWord(key, nk, i - 1), size, i, j);
    assert Added(w, size, i, j) == AddedByte(w[4 * (i - 1)..4 * (i - 1) + 4], size, i, j);
    ExpandedAt(key, size, i, j);
    ExpandedAt(key, size, i - nk, j);
    ScheduleStep(key, nk, i, j);
  }

  /** What is added to word i depends on the bytes before it alone. */
  lemma AddedAgrees(w: seq<byte>, v: seq<byte>, size: KeySize, i: nat, j: nat)
    requires size.Nk() <= i < size.Words() && j < 4 && |w| == |v| == 4 * size.Words()
    requires forall m | 0 <= m < 4 * i :: w[m] == v[m]
    ensures Added(w, size, i, j) == Added(v, size, i, j)
  {
    hide AddedByte, KeySize.Nk, KeySize.Nr, KeySize.Words;
    assert w[4 * (i - 1)..4 * i] == v[4 * (i - 1)..4 * i];
  }

  lemma {:induction false} SchedulesAgree(w: seq<byte>, v: seq<byte>, key: seq<byte>, size: KeySize, n: nat)
    requires |key| == 4 * size.Nk() && IsSchedule(w, key, size) && IsSchedule(v, key, size) && n <= |w|
    ensures forall m | 0 <= m < n :: w[m] == v[m]
  {
    hide Added;
    if n > 0 {
      var k := n - 1;
      SchedulesAgree(w, v, key, size, k);
      if k >= |key| {
        AddedAgrees(w, v, size, k / 4, k % 4);
        assert w[k] == w[k - |key|] ^ Added(w, size, k / 4, k % 4);
        assert v[k] == v[k - |key|] ^ Added(v, size, k / 4, k % 4);
        assert w[k - |key|] == v[k - |key|];
      } else {
        assert w[k] == key[k] == v[k];
      }
    }
  }

  /** These equations have one solution, the expanded key. */
  lemma ScheduleIsStandard(w: seq<byte>, key: seq<byte>, size: KeySize)
    requires |key| == 4 * size.Nk()
    ensures IsSchedule(w, key, size) <==> w == ExpandedKey(key, size)
  {
    ExpandedIsSchedule(key, size);
    hide ExpandedKey, Added;
    if IsSchedule(w, key, size) {
      SchedulesAgree(w, ExpandedKey(key, size), key, size, |w|);
    }
  }

  // ----- The expansion loop.

  /** The words of the schedule below i, as they lie in the array. */
  ghost predicate Filled(roundKey: array<byte>, key: seq<byte>, nk: nat, i: nat)
    requires 0 < nk && |key| == 4 * nk && 4 * i <= roundKey.Length
    reads roundKey
  {
    forall j | 0 <= j < i :: WordAt(roundKey, j) == ScheduleWord(key, nk, j)
  }

  function WordAt(roundKey: array<byte>, i: nat): Word
    requires 4 * i + 4 <= roundKey.Length
    reads roundKey
  {
    roundKey[4 * i..4 * i + 4]
  }

  lemma FilledIsExpanded(roundKey: array<byte>, key: seq<byte>, size: KeySize)
    requires |key| == 4 * size.Nk() && roundKey.Length == 4 * size.Words()
    requires Filled(roundKey, key, size.Nk(), size.Words())
    ensures roundKey[..] == ExpandedKey(key, size)
  {
    hide ScheduleWord;
    forall k | 0 <= k < roundKey.Length ensures roundKey[k] == ExpandedKey(key, size)[k] {
      assert WordAt(roundKey, k / 4)[k % 4] == roundKey[4 * (k / 4) + k % 4];
    }
  }

  /** The first half of a loop step: tempa, from the word before word i. */
  method PrepareTemp(word: Word, size: KeySize, i: nat) returns (tempa: Word)
    requires size.Nk() <= i < size.Words()
    ensures tempa == Temp(word, size.Nk(), i)
    ensures forall j | 0 <= j < 4 :: tempa[j] == AddedByte(word, size, i, j)
  {
    hide SubWord, RotWord, XPower, Rcon, AddedByte;
    var nk := size.Nk();
    tempa := word;
    if i % nk == 0 {
      tempa := RotWord(tempa);
      tempa := SubWord(tempa);
      RconInBounds(size, i);
      RconIsPower(i / nk);
      tempa := [tempa[0] ^ Rcon(i / nk), tempa[1], tempa[2], tempa[3]];
    }
    if size == Aes256 && i % nk == 4 {
      tempa := SubWord(tempa);
    }
    forall j | 0 <= j < 4 ensures Temp(word, nk, i)[j] == AddedByte(word, size, i, j) {
      TempByte(word, size, i, j);
    }
  }

  method WriteWord(roundKey: array<byte>, i: nat, word: Word)
    requires 4 * i + 4 <= roundKey.Length
    modifies roundKey
    ensures WordAt(roundKey, i) == word
    ensures forall j: nat | j != i && 4 * j + 4 <= roundKey.Length :: WordAt(roundKey, j) == old(WordAt(roundKey, j))
  {
    roundKey[i * 4 + 0] := word[0];
    roundKey[i * 4 + 1] := word[1];
    roundKey[i * 4 + 2] := word[2];
    roundKey[i * 4 + 3] := word[3];
  }

  /** Every index into RoundKey, Key and Rcon stays in bounds for all three key sizes. */
  method KeyExpansion(roundKey: array<byte>, key: seq<byte>, size: KeySize)
    requires |key| == 4 * size.Nk() && roundKey.Length == 4 * size.Words()
    modifies roundKey
    ensures roundKey[..] == ExpandedKey(key, size)
    ensures IsSchedule(roundKey[..], key, size)
  {
    hide Temp, WordAt, Aes.Xor, IsSchedule;
    var nk := size.Nk();
    for i := 0 to nk
      invariant Filled(roundKey, key, nk, i)
    {
      WriteWord(roundKey, i, key[i * 4..i * 4 + 4]);
    }
    for i := nk to 4 * (size.Nr() + 1)
      invariant Filled(roundKey, key, nk, i)
    {
      var tempa := PrepareTemp(WordAt(roundKey, i - 1), size, i);
      WriteWord(roundKey, i, Aes.Xor(WordAt(roundKey, i - nk), tempa));
    }
    FilledIsExpanded(roundKey, key, size);
    ExpandedIsSchedule(key, size);
  }
}
