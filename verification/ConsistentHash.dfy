/** The hash of byte strings and addresses, on 32-bit words that wrap. */
module ConsistentHash {
  import opened Bytes

  const WORD: nat := 0x1_0000_0000

  type u32 = x: int | 0 <= x < 0x1_0000_0000

  const SEED: u32 := 0xbc9f1d34
  const M: u32 := 0xc6a4a793

  // The source's additions and multiplications are modulo 2^32.
  function CAdd(a: u32, b: u32): u32 {
    (a + b) % WORD
  }

  function CMul(a: u32, b: u32): u32 {
    (a * b) % WORD
  }

  /** Bit-wise exclusive or. */
  function Xor(a: nat, b: nat): nat
    decreases a + b
  {
    if a == 0 && b == 0 then 0 else (a + b) % 2 + 2 * Xor(a / 2, b / 2)
  }

  /** x >> n */
  function ShiftRight(x: nat, n: nat): nat {
    if n == 0 then x else ShiftRight(x / 2, n - 1)
  }

  function Pow2(n: nat): nat {
    if n == 0 then 1 else 2 * Pow2(n - 1)
  }

  lemma XorUnfold(a: nat, b: nat)
    ensures Xor(a, b) == if a == 0 && b == 0 then 0 else (a + b) % 2 + 2 * Xor(a / 2, b / 2)
  {
  }

  lemma XorBit(a: nat, b: nat, x: nat, p: nat, q: nat)
    requires p < 2 && q < 2 && Xor(a, b) == x
    ensures Xor(2 * a + p, 2 * b + q) == 2 * x + (p + q) % 2
  {
    hide Xor;
    XorUnfold(2 * a + p, 2 * b + q);
    XorUnfold(0, 0);
    assert (2 * a + p) / 2 == a && (2 * b + q) / 2 == b;
    assert (2 * a + p + (2 * b + q)) % 2 == (p + q) % 2;
  }

  /** Bit-wise exclusive or of two hexadecimal digits. */
  function XorDigit(p: nat, q: nat): nat {
    (p + q) % 2 + 2 * ((p / 2 + q / 2) % 2) + 4 * ((p / 4 + q / 4) % 2) + 8 * ((p / 8 + q / 8) % 2)
  }

  lemma XorHex(a: nat, b: nat, x: nat, p: nat, q: nat)
    requires p < 16 && q < 16 && Xor(a, b) == x
    ensures Xor(16 * a + p, 16 * b + q) == 16 * x + XorDigit(p, q)
  {
    hide Xor, XorDigit;
    var p3, p2, p1, p0 := Bits(p);
    var q3, q2, q1, q0 := Bits(q);
    XorBit(a, b, x, p3, q3);
    XorBit(2 * a + p3, 2 * b + q3, 2 * x + (p3 + q3) % 2, p2, q2);
    XorBit(4 * a + 2 * p3 + p2, 4 * b + 2 * q3 + q2, 4 * x + 2 * ((p3 + q3) % 2) + (p2 + q2) % 2, p1, q1);
    XorBit(8 * a + 4 * p3 + 2 * p2 + p1, 8 * b + 4 * q3 + 2 * q2 + q1,
      8 * x + 4 * ((p3 + q3) % 2) + 2 * ((p2 + q2) % 2) + (p1 + q1) % 2, p0, q0);
    XorDigitBits(p3, p2, p1, p0, q3, q2, q1, q0);
  }

  lemma Bits(p: nat) returns (p3: nat, p2: nat, p1: nat, p0: nat)
    requires p < 16
    ensures p3 < 2 && p2 < 2 && p1 < 2 && p0 < 2 && p == 8 * p3 + 4 * p2 + 2 * p1 + p0
  {
    p3 := p / 8;
    p2 := p % 8 / 4;
    p1 := p % 4 / 2;
    p0 := p % 2;
  }

  lemma XorDigitBits(p3: nat, p2: nat, p1: nat, p0: nat, q3: nat, q2: nat, q1: nat, q0: nat)
    requires p3 < 2 && p2 < 2 && p1 < 2 && p0 < 2 && q3 < 2 && q2 < 2 && q1 < 2 && q0 < 2
    ensures XorDigit(8 * p3 + 4 * p2 + 2 * p1 + p0, 8 * q3 + 4 * q2 + 2 * q1 + q0)
         == 8 * ((p3 + q3) % 2) + 4 * ((p2 + q2) % 2) + 2 * ((p1 + q1) % 2) + (p0 + q0) % 2
  {
    Halves(p3, p2, p1, p0);
    Halves(q3, q2, q1, q0);
    EvenPart(p3 + q3, p2 + q2);
    EvenPart(2 * p3 + p2 + 2 * q3 + q2, p1 + q1);
    EvenPart(4 * p3 + 2 * p2 + p1 + 4 * q3 + 2 * q2 + q1, p0 + q0);
  }

  lemma Halves(p3: nat, p2: nat, p1: nat, p0: nat)
    requires p3 < 2 && p2 < 2 && p1 < 2 && p0 < 2
    ensures var p := 8 * p3 + 4 * p2 + 2 * p1 + p0;
      p / 2 == 4 * p3 + 2 * p2 + p1 && p / 4 == 2 * p3 + p2 && p / 8 == p3
  {
  }

  lemma EvenPart(half: nat, rest: nat)
    ensures (2 * half + rest) % 2 == rest % 2
  {
  }

  lemma {:induction false} XorFits(a: nat, b: nat, n: nat)
    requires a < Pow2(n) && b < Pow2(n)
    ensures Xor(a, b) < Pow2(n)
    decreases n
  {
    hide Xor;
    XorUnfold(a, b);
    if n > 0 {
      XorFits(a / 2, b / 2, n - 1);
    }
  }

  lemma {:induction false} ShiftShrinks(x: nat, n: nat)
    ensures ShiftRight(x, n) <= x
    decreases n
  {
    if n > 0 {
      ShiftShrinks(x / 2, n - 1);
    }
  }

  lemma WordsAreBelowPow2()
    ensures Pow2(32) == WORD && Pow2(16) == 0x1_0000 && Pow2(24) == 0x100_0000
  {
    assert Pow2(8) == 0x100;
    assert Pow2(16) == 0x1_0000;
    assert Pow2(24) == 0x100_0000;
  }

  /** h ^ (h >> n) */
  function Fold(h: u32, n: nat): u32 {
    WordsAreBelowPow2();
    ShiftShrinks(h, n);
    XorFits(h, ShiftRight(h, n), 32);
    Xor(h, ShiftRight(h, n))
  }

  /** Four bytes as a little-endian word. */
  function Word(b: seq<byte>): u32
    requires |b| == 4
  {
    FromDigits(b[0] as nat, b[1] as nat, b[2] as nat, b[3] as nat)
  }

  function FromDigits(d0: nat, d1: nat, d2: nat, d3: nat): u32
    requires d0 < 0x100 && d1 < 0x100 && d2 < 0x100 && d3 < 0x100
  {
    d0 + 0x100 * (d1 + 0x100 * (d2 + 0x100 * d3))
  }

  function Mix(h: u32, w: u32): u32 {
    Fold(CMul(CAdd(h, w), M), 16)
  }

  /** The whole words of a string, in order. */
  function Words(b: seq<byte>): seq<u32> {
    if |b| < 4 then [] else [Word(b[..4])] + Words(b[4..])
  }

  function MixAll(h: u32, ws: seq<u32>): u32
    decreases ws
  {
    if ws == [] then h else MixAll(Mix(h, ws[0]), ws[1..])
  }

  function Start(len: nat): u32 {
    WordsAreBelowPow2();
    XorFits(SEED, CMul(len % WORD, M), 32);
    Xor(SEED, CMul(len % WORD, M))
  }

  /** What the one, two or three bytes behind the last whole word contribute. */
  function MixTail(h: u32, b: seq<byte>): u32
    requires |b| < 4
  {
    var h3 := if |b| == 3 then CAdd(h, 0x1_0000 * b[2] as nat) else h;
    var h2 := if |b| >= 2 then CAdd(h3, 0x100 * b[1] as nat) else h3;
    if |b| >= 1 then
      Fold(CMul(CAdd(h2, b[0] as nat), M), 24)
    else h2
  }

  function HashFrom(h: u32, b: seq<byte>): u32
    decreases |b|
  {
    if |b| < 4 then MixTail(h, b) else HashFrom(Mix(h, Word(b[..4])), b[4..])
  }

  function Hash(b: seq<byte>): u32 {
    HashFrom(Start(|b|), b)
  }

  method MixIn(h0: u32, w: u32) returns (h: u32)
    ensures h == Mix(h0, w)
  {
    h := CAdd(h0, w);
    h := CMul(h, M);
    h := Fold(h, 16);
  }

  method MixInTail(h0: u32, b: seq<byte>) returns (h: u32)
    requires |b| < 4
    ensures h == MixTail(h0, b)
  {
    hide CAdd, CMul, Fold;
    h := h0;
    var len := |b|;
    if len == 3 {
      h := CAdd(h, 0x1_0000 * b[2] as nat);
      len := len - 1;
    }
    if len == 2 {
      h := CAdd(h, 0x100 * b[1] as nat);
      len := len - 1;
    }
    if len == 1 {
      h := CAdd(h, b[0] as nat);
      h := CMul(h, M);
      h := Fold(h, 24);
    }
  }

  method Chash(buf: seq<byte>) returns (h: u32)
    ensures h == Hash(buf)
  {
    hide Mix, MixTail, Start, Word;
    h := Start(|buf|);
    var b := buf;
    var len := |buf|;
    while len >= 4
      invariant len == |b| && HashFrom(h, b) == Hash(buf)
    {
      h := MixIn(h, Word(b[..4]));
      b := b[4..];
      len := len - 4;
    }
    h := MixInTail(h, b);
  }

  lemma WordsUnfold(h: u32, b: seq<byte>)
    requires |b| >= 4
    ensures MixAll(h, Words(b)) == MixAll(Mix(h, Word(b[..4])), Words(b[4..]))
  {
    hide Mix, Word;
    assert Words(b)[1..] == Words(b[4..]);
  }

  // ---- the word-wise variant ----

  /** Four bytes as the host reads them. */
  function NativeWord(b: seq<byte>, bigEndian: bool): u32
    requires |b| == 4
  {
    if bigEndian then Word([b[3], b[2], b[1], b[0]]) else Word(b)
  }

  function SwapBytes(w: u32): u32 {
    var w1 := w / 0x100;
    var w2 := w1 / 0x100;
    var w3 := w2 / 0x100;
    FromDigits(w3, w2 % 0x100, w1 % 0x100, w % 0x100)
  }

  function ToLe(w: u32, bigEndian: bool): u32 {
    if bigEndian then SwapBytes(w) else w
  }

  lemma LowAndHigh(low: nat, high: nat)
    requires low < 0x100
    ensures (low + 0x100 * high) % 0x100 == low && (low + 0x100 * high) / 0x100 == high
  {
  }

  lemma DigitsOfWord(b: seq<byte>)
    requires |b| == 4
    ensures Word(b) % 0x100 == b[0] as nat
    ensures Word(b) / 0x100 % 0x100 == b[1] as nat
    ensures Word(b) / 0x100 / 0x100 % 0x100 == b[2] as nat
    ensures Word(b) / 0x100 / 0x100 / 0x100 == b[3] as nat
  {
    hide FromDigits;
    Digits(b[0] as nat, b[1] as nat, b[2] as nat, b[3] as nat);
  }

  lemma Digits(d0: nat, d1: nat, d2: nat, d3: nat)
    requires d0 < 0x100 && d1 < 0x100 && d2 < 0x100 && d3 < 0x100
    ensures var w := FromDigits(d0, d1, d2, d3);
      && w % 0x100 == d0
      && w / 0x100 % 0x100 == d1
      && w / 0x100 / 0x100 % 0x100 == d2
      && w / 0x100 / 0x100 / 0x100 == d3
  {
    LowAndHigh(d0, d1 + 0x100 * (d2 + 0x100 * d3));
    LowAndHigh(d1, d2 + 0x100 * d3);
    LowAndHigh(d2, d3);
  }

  lemma LittleEndianOnEveryHost(b: seq<byte>, bigEndian: bool)
    requires |b| == 4
    ensures ToLe(NativeWord(b, bigEndian), bigEndian) == Word(b)
  {
    DigitsOfWord([b[3], b[2], b[1], b[0]]);
  }

  /** The aligned middle of a buffer that starts `skew` bytes before a boundary. */
  function AlignedMiddle(buf: seq<byte>, skew: nat): seq<byte> {
    if skew >= |buf| then [] else buf[skew..skew + (|buf| - skew) / 4 * 4]
  }

  function WordHash(buf: seq<byte>, skew: nat): u32 {
    MixAll(Start(|buf|), Words(AlignedMiddle(buf, skew)))
  }

  method ChashForIp(buf: seq<byte>, skew: nat, bigEndian: bool) returns (h: u32)
    ensures h == WordHash(buf, skew)
  {
    hide Mix, Start, Word, ToLe, NativeWord;
    h := Start(|buf|);
    var middle := AlignedMiddle(buf, skew);
    var i := 0;
    assert middle[0..] == middle;
    while i < |middle|
      invariant i <= |middle| && i % 4 == 0 && |middle| % 4 == 0
      invariant MixAll(h, Words(middle[i..])) == MixAll(Start(|buf|), Words(middle))
    {
      WordsUnfold(h, middle[i..]);
      assert middle[i..][..4] == middle[i..i + 4] && middle[i..][4..] == middle[i + 4..];
      LittleEndianOnEveryHost(middle[i..i + 4], bigEndian);
      var b := ToLe(NativeWord(middle[i..i + 4], bigEndian), bigEndian);
      h := MixIn(h, b);
      i := i + 4;
    }
  }

  /** On an aligned buffer of whole words both variants agree. */
  lemma VariantsAgree(buf: seq<byte>)
    requires |buf| % 4 == 0
    ensures WordHash(buf, 0) == Hash(buf)
  {
    hide Start, Words;
    assert AlignedMiddle(buf, 0) == buf;
    WholeWordsAgree(Start(|buf|), buf);
  }

  lemma {:induction false} WholeWordsAgree(h: u32, b: seq<byte>)
    requires |b| % 4 == 0
    ensures MixAll(h, Words(b)) == HashFrom(h, b)
    decreases |b|
  {
    hide Mix, Word, Start, MixTail;
    if |b| >= 4 {
      WordsUnfold(h, b);
      WholeWordsAgree(Mix(h, Word(b[..4])), b[4..]);
    } else {
      NoTail(h);
      assert b == [];
    }
  }

  lemma NoTail(h: u32)
    ensures MixTail(h, []) == h
  {
  }

  // ---- different words mix differently ----

  /** The inverse of the multiplier modulo 2^32. */
  const M_INVERSE: u32 := 0xd8198e9b

  lemma {:induction false} XorTwice(a: nat, b: nat)
    ensures Xor(Xor(a, b), b) == a
    decreases a + b
  {
    hide Xor;
    XorUnfold(a, b);
    if a + b > 0 {
      XorTwice(a / 2, b / 2);
      XorBit(Xor(a / 2, b / 2), b / 2, a / 2, (a + b) % 2, b % 2);
    } else {
      assert a == 0 && b == 0;
    }
  }

  lemma {:induction false} XorNothing(a: nat)
    ensures Xor(a, 0) == a
  {
    hide Xor;
    XorUnfold(a, 0);
    if a > 0 {
      XorNothing(a / 2);
    }
  }

  lemma {:induction false} ShiftOfXor(a: nat, b: nat, n: nat)
    ensures ShiftRight(Xor(a, b), n) == Xor(ShiftRight(a, n), ShiftRight(b, n))
    decreases n
  {
    hide Xor;
    XorUnfold(a, b);
    if n > 0 {
      ShiftOfXor(a / 2, b / 2, n - 1);
      XorNothing(0);
      assert Xor(a, b) / 2 == Xor(a / 2, b / 2);
    }
  }

  lemma {:induction false} ShiftsAdd(x: nat, m: nat, n: nat)
    ensures ShiftRight(ShiftRight(x, m), n) == ShiftRight(x, m + n)
    decreases m
  {
    if m > 0 {
      ShiftsAdd(x / 2, m - 1, n);
    }
  }

  lemma {:induction false} ShiftedOut(x: nat, n: nat)
    requires x < Pow2(n)
    ensures ShiftRight(x, n) == 0
    decreases n
  {
    if n > 0 {
      ShiftedOut(x / 2, n - 1);
    }
  }

  /** Folding a word by half of it or less undoes itself. */
  lemma FoldTwice(x: u32, n: nat)
    requires n >= 16
    ensures Fold(Fold(x, n), n) == x
  {
    hide Xor, ShiftRight, Pow2;
    var s := ShiftRight(x, n);
    ShiftOfXor(x, s, n);
    ShiftsAdd(x, n, n);
    WordsAreBelowPow2();
    Pow2Grows(32, n + n);
    ShiftedOut(x, n + n);
    XorNothing(s);
    XorTwice(x, s);
  }

  lemma {:induction false} Pow2Grows(m: nat, n: nat)
    requires m <= n
    ensures Pow2(m) <= Pow2(n)
    decreases n
  {
    if m < n {
      Pow2Grows(m, n - 1);
    }
  }

  // 2813248032 * 2^32 + 1 is the product of the two constants.
  lemma MultiplierCancels(x: u32)
    ensures CMul(CMul(x, M), M_INVERSE) == x
  {
    var q, r := x * M / WORD, x * M % WORD;
    assert x * M == WORD * q + r;
    Remainder(r * M_INVERSE, 2813248032 * x - q * M_INVERSE, x);
  }

  lemma Remainder(a: int, k: int, r: nat)
    requires a == WORD * k + r && r < WORD
    ensures a % WORD == r
  {
  }

  lemma SumCancels(h: u32, v: u32, w: u32)
    requires CAdd(h, v) == CAdd(h, w)
    ensures v == w
  {
  }

  /** Different words mix to different states. */
  lemma MixIsInjective(h: u32, v: u32, w: u32)
    requires Mix(h, v) == Mix(h, w)
    ensures v == w
  {
    hide CAdd, CMul, Fold;
    var a, b := CAdd(h, v), CAdd(h, w);
    FoldTwice(CMul(a, M), 16);
    FoldTwice(CMul(b, M), 16);
    MultiplierCancels(a);
    MultiplierCancels(b);
    SumCancels(h, v, w);
  }

  /** Different states stay different whatever is mixed in. */
  lemma MixKeepsStatesApart(g: u32, h: u32, w: u32)
    requires Mix(g, w) == Mix(h, w)
    ensures g == h
  {
    hide CMul, Fold;
    var a, b := CAdd(g, w), CAdd(h, w);
    FoldTwice(CMul(a, M), 16);
    FoldTwice(CMul(b, M), 16);
    MultiplierCancels(a);
    MultiplierCancels(b);
  }

  lemma WordIsInjective(a: seq<byte>, b: seq<byte>)
    requires |a| == 4 == |b| && Word(a) == Word(b)
    ensures a == b
  {
    DigitsOfWord(a);
    DigitsOfWord(b);
    hide Word;
    forall i | 0 <= i < 4
      ensures a[i] == b[i]
    {
      SameNumberSameByte(a[i], b[i]);
    }
  }

  // ---- skewed buffers ----

  /** On a skewed IPv4 address no whole word is aligned: the hash is the same for
      every address. */
  lemma SkewedV4IsConstant(buf: seq<byte>, skew: nat)
    requires |buf| == 4 && 0 < skew < 4
    ensures WordHash(buf, skew) == Start(4)
  {
    hide Start;
    assert AlignedMiddle(buf, skew) == [];
  }

  /** So it agrees with the byte-wise hash at exactly one address, 95.16.28.143. */
  lemma SkewedV4AgreesOnce(buf: seq<byte>, skew: nat)
    requires |buf| == 4 && 0 < skew < 4
    ensures WordHash(buf, skew) == Hash(buf) <==> buf == [95, 16, 28, 143]
  {
    hide Start, Mix, Word, WordHash, MixTail;
    SkewedV4IsConstant(buf, skew);
    HashOfOneWord(buf);
    var fixed := [95, 16, 28, 143];
    StartOfFour();
    FixedBytes();
    FixedWord(Start(4), Word(fixed));
    if Hash(buf) == Start(4) {
      MixIsInjective(Start(4), Word(buf), Word(fixed));
      WordIsInjective(buf, fixed);
    }
  }

  lemma HashOfOneWord(b: seq<byte>)
    requires |b| == 4
    ensures Hash(b) == Mix(Start(4), Word(b))
  {
    hide Start, Mix, Word, MixTail;
    var h := Mix(Start(4), Word(b));
    assert b[..4] == b && b[4..] == [];
    assert HashFrom(Start(4), b) == HashFrom(h, []) == MixTail(h, []);
    NoTail(h);
  }

  lemma FixedWord(s: u32, w: u32)
    requires s == 0xa60d8378 && w == 0x8f1c105f
    ensures Mix(s, w) == s
  {
    hide Fold;
    var mixed := CMul(CAdd(s, w), M);
    assert mixed == 0xa60d2575;
    FoldOfFixed();
  }

  lemma FixedBytes()
    ensures Word([95, 16, 28, 143]) == 0x8f1c105f
  {
  }

  lemma StartOfFour()
    ensures Start(4) == 0xa60d8378
  {
    XorOfFour();
    hide Xor;
    assert CMul(4, M) == 0x1a929e4c;
  }

  lemma XorOfFour()
    ensures Xor(0xbc9f1d34, 0x1a929e4c) == 0xa60d8378
  {
    hide Xor;
    XorNothing(0);
    XorHex(0x0, 0x0, 0x0, 0xb, 0x1); XorHex(0xb, 0x1, 0xa, 0xc, 0xa);
    XorHex(0xbc, 0x1a, 0xa6, 0x9, 0x9); XorHex(0xbc9, 0x1a9, 0xa60, 0xf, 0x2);
    XorOfFourLow();
  }

  lemma XorOfFourLow()
    requires Xor(0xbc9f, 0x1a92) == 0xa60d
    ensures Xor(0xbc9f1d34, 0x1a929e4c) == 0xa60d8378
  {
    hide Xor;
    XorHex(0xbc9f, 0x1a92, 0xa60d, 0x1, 0x9); XorHex(0xbc9f1, 0x1a929, 0xa60d8, 0xd, 0xe);
    XorHex(0xbc9f1d, 0x1a929e, 0xa60d83, 0x3, 0x4); XorHex(0xbc9f1d3, 0x1a929e4, 0xa60d837, 0x4, 0xc);
  }

  lemma FoldOfFixed()
    ensures Fold(0xa60d2575, 16) == 0xa60d8378
  {
    hide Xor, ShiftRight, Pow2;
    WordsAreBelowPow2();
    ShiftDropsLow(0xa60d, 0x2575, 16);
    XorOfFixed();
  }

  lemma HalfOfSum(high: nat, power: nat, low: nat)
    ensures (high * (2 * power) + low) / 2 == high * power + low / 2
    ensures low < 2 * power ==> low / 2 < power
  {
    var half := high * power;
    assert high * (2 * power) == 2 * half;
  }

  lemma {:induction false} ShiftDropsLow(high: nat, low: nat, n: nat)
    requires low < Pow2(n)
    ensures ShiftRight(high * Pow2(n) + low, n) == high
    decreases n
  {
    if n > 0 {
      HalfOfSum(high, Pow2(n - 1), low);
      ShiftDropsLow(high, low / 2, n - 1);
    }
  }

  lemma XorOfFixed()
    ensures Xor(0xa60d2575, 0xa60d) == 0xa60d8378
  {
    hide Xor;
    XorNothing(0xa60d);
    XorHex(0xa60d, 0x0, 0xa60d, 0x2, 0xa); XorHex(0xa60d2, 0xa, 0xa60d8, 0x5, 0x6);
    XorHex(0xa60d25, 0xa6, 0xa60d83, 0x7, 0x0); XorHex(0xa60d257, 0xa60, 0xa60d837, 0x5, 0xd);
  }

  /** On a skewed IPv6 address the hash reads twelve of the sixteen bytes. */
  lemma SkewedV6IsMiddle(a: seq<byte>, skew: nat)
    requires |a| == 16 && 0 < skew < 4
    ensures WordHash(a, skew) == MixAll(Start(16), Words(a[skew..skew + 12]))
  {
    hide MixAll, Words, Start;
    assert AlignedMiddle(a, skew) == a[skew..skew + 12];
  }

  /** Addresses that differ in the bytes behind the middle only: the skewed hash is
      the same, the byte-wise one differs. */
  lemma SkewedV6MissesTheEnd(a: seq<byte>, b: seq<byte>, skew: nat)
    requires |a| == 16 == |b| && 0 < skew < 4
    requires a != b && a[..skew + 12] == b[..skew + 12]
    ensures WordHash(a, skew) == WordHash(b, skew) && Hash(a) != Hash(b)
  {
    hide MixAll, Words, Start, Hash, Word, Mix;
    assert a[..skew + 12][skew..] == a[skew..skew + 12] && b[..skew + 12][skew..] == b[skew..skew + 12];
    SkewedV6IsMiddle(a, skew);
    SkewedV6IsMiddle(b, skew);
    assert a[..12] == a[..skew + 12][..12] == b[..12];
    assert a == a[..12] + a[12..] && b == b[..12] + b[12..];
    LastWordCounts(Start(16), a, b);
    VariantsAgree(a);
    VariantsAgree(b);
    assert AlignedMiddle(a, 0) == a && AlignedMiddle(b, 0) == b;
  }

  lemma LastWordCounts(h: u32, a: seq<byte>, b: seq<byte>)
    requires |a| == 16 == |b| && a[..12] == b[..12] && a[12..] != b[12..]
    ensures MixAll(h, Words(a)) != MixAll(h, Words(b))
  {
    hide MixAll, Words, Word, Mix;
    MixLastWord(h, a);
    MixLastWord(h, b);
    if Word(a[12..]) == Word(b[12..]) {
      WordIsInjective(a[12..], b[12..]);
    } else if MixAll(h, Words(a)) == MixAll(h, Words(b)) {
      MixIsInjective(MixAll(h, Words(a[..12])), Word(a[12..]), Word(b[12..]));
    }
  }

  lemma {:induction false} MixLastWord(h: u32, b: seq<byte>)
    requires |b| >= 4 && |b| % 4 == 0
    ensures MixAll(h, Words(b)) == Mix(MixAll(h, Words(b[..|b| - 4])), Word(b[|b| - 4..]))
    decreases |b|
  {
    hide Mix, Word, MixAll, Words;
    WordsUnfold(h, b);
    if |b| == 4 {
      NoWords(h);
      NoWords(Mix(h, Word(b)));
      assert b[..4] == b == b[0..] && b[..0] == b[4..] == [];
    } else {
      var rest, most := b[4..], b[..|b| - 4];
      MixLastWord(Mix(h, Word(b[..4])), rest);
      WordsUnfold(h, most);
      assert most[..4] == b[..4] && most[4..] == rest[..|rest| - 4];
      assert rest[|rest| - 4..] == b[|b| - 4..];
    }
  }

  lemma NoWords(h: u32)
    ensures MixAll(h, Words([])) == h
  {
  }
}
