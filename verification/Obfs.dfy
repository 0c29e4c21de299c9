/** The obfuscation prefix: five header bytes hiding a length in their ASCII
    digits, followed by that many bytes of garbage. */
module Obfs {
  import opened Bytes
  import opened Wrappers
  import opened Decimals

  // ---- random draws ----

  const LCG_MUL: nat := 6364136223846793005
  const TWO32: nat := 0x1_0000_0000
  const TWO64: nat := 0x1_0000_0000_0000_0000

  function LcgStep(state: nat): (next: nat)
    ensures next < TWO64
  {
    (state * LCG_MUL + 1) % TWO64
  }

  /** The generator's state after `k` draws. */
  function LcgState(seed: nat, k: nat): nat {
    if k == 0 then seed else LcgStep(LcgState(seed, k - 1))
  }

  /** A source of randomness: the 32-bit value of every draw. */
  type Draws = nat -> nat

  function LcgDraws(seed: nat): Draws {
    (k: nat) => LcgState(seed, k + 1) / TWO32
  }

  /** Draw number `k`, brought into lo..=hi. */
  function Draw(u: Draws, k: nat, lo: nat, hi: nat): (v: nat)
    requires lo <= hi
    ensures lo <= v <= hi
  {
    lo + u(k) % (hi - lo + 1)
  }

  class SimpleRng {
    var state: nat
    ghost const seed: nat
    ghost var drawn: nat

    ghost predicate Valid()
      reads this
    {
      state == LcgState(seed, drawn)
    }

    constructor (seed: nat)
      ensures Valid() && this.seed == seed && drawn == 0
    {
      state, this.seed, drawn := seed, seed, 0;
    }

    method NextRange(lo: nat, hi: nat) returns (v: nat)
      requires Valid() && lo <= hi
      modifies this
      ensures Valid() && drawn == old(drawn) + 1
      ensures v == Draw(LcgDraws(seed), old(drawn), lo, hi)
    {
      state := LcgStep(state);
      drawn := drawn + 1;
      var val := state / TWO32;
      v := lo + val % (hi - lo + 1);
    }
  }

  // ---- digits ----

  function Filler(v: nat): (b: byte)
    requires v <= 245
    ensures !IsDigit(b)
  {
    if v < 48 then v as bv8 else (v + 10) as bv8
  }

  /** The ASCII digits of a byte string, in order. */
  function Digits(s: seq<byte>): (ds: seq<byte>)
    ensures |ds| <= |s| && forall d | d in ds :: IsDigit(d)
  {
    if s == [] then []
    else if IsDigit(s[0]) then [s[0]] + Digits(s[1..])
    else Digits(s[1..])
  }

  /** The receiver's test: two digits not starting with 0, or three not starting with 00. */
  predicate Accepted(ds: seq<byte>) {
    || (|ds| == 2 && ds[0] != 48)
    || (|ds| == 3 && !(ds[0] == 48 && ds[1] == 48))
  }

  // ---- the key ----

  /** XOR with the repeated key; nothing for an empty key. */
  function Mask(key: seq<byte>, s: seq<byte>): (r: seq<byte>)
    ensures |r| == |s|
  {
    if key == [] then s else seq(|s|, i requires 0 <= i < |s| => s[i] ^ key[i % |key|])
  }

  lemma MaskTwice(key: seq<byte>, s: seq<byte>)
    ensures Mask(key, Mask(key, s)) == s
  {
    if key != [] {
      forall i | 0 <= i < |s|
        ensures Mask(key, Mask(key, s))[i] == s[i]
      {
        XorCancels(s[i], key[i % |key|]);
      }
    }
  }

  // ---- the generator, as a function of its draws ----

  /** The digits of the length; draw 0 decides between two and three of them. */
  function ChosenDigits(u: Draws): (ds: seq<byte>)
    ensures |ds| == (if Draw(u, 0, 0, 1) == 0 then 2 else 3)
    ensures Accepted(ds) && forall d | d in ds :: IsDigit(d)
  {
    if Draw(u, 0, 0, 1) == 0 then
      [DigitByte(Draw(u, 1, 1, 9)), DigitByte(Draw(u, 2, 0, 9))]
    else
      var first := Draw(u, 1, 0, 9);
      [DigitByte(first), DigitByte(Draw(u, 2, if first == 0 then 1 else 0, 9)), DigitByte(Draw(u, 3, 0, 9))]
  }

  predicate Permutation(ix: seq<nat>) {
    && |ix| == 5
    && (forall i | 0 <= i < 5 :: ix[i] < 5)
    && (forall i, j | 0 <= i < j < 5 :: ix[i] != ix[j])
  }

  function Swap(ix: seq<nat>, i: nat, j: nat): seq<nat>
    requires i < |ix| && j < |ix|
  {
    ix[i := ix[j]][j := ix[i]]
  }

  /** Fisher-Yates over 0..5; step i uses draw k + i. */
  function Shuffled(u: Draws, k: nat, steps: nat): (ix: seq<nat>)
    requires steps <= 4
    ensures Permutation(ix)
  {
    if steps == 0 then [0, 1, 2, 3, 4] else
      var i := steps - 1;
      Swap(Shuffled(u, k, i), i, Draw(u, k + i, i, 4))
  }

  /** How many of the positions i..5 are chosen. */
  function Left(positions: seq<nat>, i: nat): nat
    decreases 5 - i
  {
    if i >= 5 then 0 else Left(positions, i + 1) + if i in positions then 1 else 0
  }

  lemma {:induction false} LeftWithOneMore(positions: seq<nat>, x: nat, i: nat)
    requires x !in positions && x < 5
    ensures Left(positions + [x], i) == Left(positions, i) + if i <= x then 1 else 0
    decreases 5 - i
  {
    if i < 5 {
      LeftWithOneMore(positions, x, i + 1);
    }
  }

  lemma {:induction false} NoneLeft(i: nat)
    ensures Left([], i) == 0
    decreases 5 - i
  {
    if i < 5 {
      NoneLeft(i + 1);
    }
  }

  lemma {:induction false} LeftAtStart(ix: seq<nat>, n: nat)
    requires Permutation(ix) && n <= 5
    ensures Left(ix[..n], 0) == n
  {
    hide Left;
    if n == 0 {
      NoneLeft(0);
    } else {
      LeftAtStart(ix, n - 1);
      assert ix[..n] == ix[..n - 1] + [ix[n - 1]];
      LeftWithOneMore(ix[..n - 1], ix[n - 1], 0);
    }
  }

  lemma LeftStep(positions: seq<nat>, i: nat)
    ensures Left(positions, i)
      == if i >= 5 then 0 else Left(positions, i + 1) + if i in positions then 1 else 0
  {
  }

  lemma NoDigits()
    ensures Digits([]) == []
  {
  }

  lemma HeaderCons(b: byte, rest: seq<byte>, positions: seq<nat>, i: nat)
    requires IsDigit(b) <==> i in positions
    requires forall j | 0 <= j < |rest| :: IsDigit(rest[j]) <==> i + 1 + j in positions
    ensures Digits([b] + rest) == (if IsDigit(b) then [b] else []) + Digits(rest)
    ensures forall j | 0 <= j < |[b] + rest| :: IsDigit(([b] + rest)[j]) <==> i + j in positions
  {
    assert ([b] + rest)[1..] == rest;
    forall j | 0 <= j < |[b] + rest|
      ensures IsDigit(([b] + rest)[j]) <==> i + j in positions
    {
      assert ([b] + rest)[j] == if j == 0 then b else rest[j - 1];
      assert j > 0 ==> (IsDigit(rest[j - 1]) <==> i + 1 + (j - 1) in positions);
    }
  }

  /** Header bytes i.. : the digits at the chosen positions in order, fillers
      elsewhere; each filler uses the next draw. */
  function HeaderFrom(u: Draws, k: nat, positions: seq<nat>, digits: seq<byte>, i: nat): (h: seq<byte>)
    requires i <= 5 && |digits| == Left(positions, i) && forall d | d in digits :: IsDigit(d)
    ensures |h| == 5 - i && Digits(h) == digits
    ensures forall j | 0 <= j < |h| :: IsDigit(h[j]) <==> i + j in positions
    decreases 5 - i
  {
    hide Draw, Filler, Digits, Left, IsDigit;
    LeftStep(positions, i);
    if i == 5 then
      NoDigits();
      []
    else if i in positions then
      var rest := HeaderFrom(u, k, positions, digits[1..], i + 1);
      HeaderCons(digits[0], rest, positions, i);
      [digits[0]] + rest
    else
      var rest := HeaderFrom(u, k + 1, positions, digits, i + 1);
      HeaderCons(Filler(Draw(u, k, 0, 245)), rest, positions, i);
      [Filler(Draw(u, k, 0, 245))] + rest
  }

  function Garbage(u: Draws, k: nat, n: nat): (g: seq<byte>)
    ensures |g| == n
  {
    seq(n, i requires 0 <= i < n => Draw(u, k + i, 0, 255) as bv8)
  }

  /** Draws used before the shuffle: the choice and two or three digits. */
  function ShuffleAt(u: Draws): nat {
    1 + |ChosenDigits(u)|
  }

  function Positions(u: Draws): (positions: seq<nat>)
    ensures Left(positions, 0) == |ChosenDigits(u)|
  {
    var n := |ChosenDigits(u)|;
    LeftAtStart(Shuffled(u, ShuffleAt(u), 4), n);
    Shuffled(u, ShuffleAt(u), 4)[..n]
  }

  function Header(u: Draws): (h: seq<byte>)
    ensures |h| == 5 && Digits(h) == ChosenDigits(u)
  {
    HeaderFrom(u, ShuffleAt(u) + 4, Positions(u), ChosenDigits(u), 0)
  }

  /** The prefix as sent. The header uses five draws fewer than it has digits. */
  function Generate(key: seq<byte>, u: Draws): seq<byte> {
    var n := |ChosenDigits(u)|;
    Mask(key, Header(u)) + Garbage(u, ShuffleAt(u) + 4 + (5 - n), Value(ChosenDigits(u)))
  }

  // ---- the parser ----

  datatype ParseError = Truncated | Probe | LengthAnomaly

  /** What is left of the stream once the prefix is consumed. */
  function Parse(key: seq<byte>, stream: seq<byte>): Result<seq<byte>, ParseError> {
    if |stream| < 5 then Err(Truncated) else
      var digits := Digits(Mask(key, stream[..5]));
      if !Accepted(digits) then Err(Probe)
      else if Value(digits) > 999 then Err(LengthAnomaly)
      else if |stream| < 5 + Value(digits) then Err(Truncated)
      else Ok(stream[5 + Value(digits)..])
  }

  /** A well-formed prefix: its unmasked header announces the rest of it. */
  predicate IsPrefix(key: seq<byte>, p: seq<byte>) {
    && |p| >= 5
    && var digits := Digits(Mask(key, p[..5]));
       Accepted(digits) && |p| == 5 + Value(digits)
  }

  /** Accepted lengths are exactly 10..=999, so no length check can fail later. */
  lemma AcceptedLengths(ds: seq<byte>)
    requires forall d | d in ds :: IsDigit(d)
    requires Accepted(ds)
    ensures 10 <= Value(ds) <= 999
  {
    var init := ds[..|ds| - 1];
    assert DigitValue(ds[0]) == 0 <==> ds[0] == 48;
    assert DigitValue(ds[1]) == 0 <==> ds[1] == 48;
    assert Value([]) == 0;
    if |ds| == 2 {
      ValueOfTwo(ds);
    } else {
      ValueOfTwo(init);
    }
  }

  lemma ValueOfTwo(ds: seq<byte>)
    requires |ds| == 2 && forall d | d in ds :: IsDigit(d)
    ensures Value(ds) == 10 * DigitValue(ds[0]) + DigitValue(ds[1])
  {
    var first := ds[..1];
    assert first[..0] == [] && Value(first) == 10 * Value([]) + DigitValue(first[0]);
  }

  /** Every generated prefix is well formed, whatever the draws and the key. */
  lemma GeneratedIsPrefix(key: seq<byte>, u: Draws)
    ensures IsPrefix(key, Generate(key, u))
  {
    MaskTwice(key, Header(u));
    assert Generate(key, u)[..5] == Mask(key, Header(u));
  }

  /** Round trip: the receiver consumes the prefix and nothing else. */
  lemma RoundTrip(key: seq<byte>, u: Draws, rest: seq<byte>)
    ensures Parse(key, Generate(key, u) + rest) == Ok(rest)
  {
    GeneratedIsPrefix(key, u);
    ParseIsExact(key, Generate(key, u) + rest, rest);
  }

  /** The parser succeeds exactly on the streams that begin with a well-formed
      prefix, and leaves exactly what follows it. */
  lemma ParseIsExact(key: seq<byte>, stream: seq<byte>, rest: seq<byte>)
    ensures Parse(key, stream) == Ok(rest) <==> exists p :: IsPrefix(key, p) && stream == p + rest
    ensures Parse(key, stream) != Err(LengthAnomaly)
  {
    if |stream| >= 5 && Accepted(Digits(Mask(key, stream[..5]))) {
      AcceptedLengths(Digits(Mask(key, stream[..5])));
    }
    if Parse(key, stream) == Ok(rest) {
      var p := stream[..|stream| - |rest|];
      assert p[..5] == stream[..5];
      assert IsPrefix(key, p) && stream == p + rest;
    }
    if exists p :: IsPrefix(key, p) && stream == p + rest {
      var p :| IsPrefix(key, p) && stream == p + rest;
      assert stream[..5] == p[..5];
      assert stream[|p|..] == rest;
    }
  }

  /** No well-formed prefix begins another one. */
  lemma PrefixIsSelfDelimiting(key: seq<byte>, p: seq<byte>, q: seq<byte>, rest: seq<byte>)
    requires IsPrefix(key, p) && IsPrefix(key, q) && q <= p + rest
    ensures p == q
  {
    var all := p + rest;
    assert p[..5] == all[..5] == q[..5];
    assert p == all[..|p|] && q == all[..|q|];
  }

  /** The length a generated prefix announces, in terms of the draws. */
  lemma AnnouncedLength(u: Draws)
    ensures Value(ChosenDigits(u)) ==
      if Draw(u, 0, 0, 1) == 0 then 10 * Draw(u, 1, 1, 9) + Draw(u, 2, 0, 9)
      else
        var first := Draw(u, 1, 0, 9);
        100 * first + 10 * Draw(u, 2, if first == 0 then 1 else 0, 9) + Draw(u, 3, 0, 9)
  {
    hide Draw, Value;
    var ds := ChosenDigits(u);
    if |ds| == 2 {
      ValueOfTwo(ds);
    } else {
      ValueOfTwo(ds[..2]);
      ValueOfThree(ds);
    }
  }

  lemma ValueOfThree(ds: seq<byte>)
    requires |ds| == 3 && forall d | d in ds :: IsDigit(d)
    ensures Value(ds) == 10 * Value(ds[..2]) + DigitValue(ds[2])
  {
  }

  lemma DecimalDigits(n: nat) returns (d0: nat, d1: nat, d2: nat)
    requires n <= 999
    ensures n == 100 * d0 + 10 * d1 + d2 && d0 <= 9 && d1 <= 9 && d2 <= 9
  {
    var rest := n % 100;
    d0, d1, d2 := n / 100, rest / 10, rest % 10;
  }

  // ---- the generator, as the program runs it ----

  method DrawDigits(rng: SimpleRng) returns (digits: seq<byte>)
    requires rng.Valid() && rng.drawn == 0
    modifies rng
    ensures rng.Valid() && digits == ChosenDigits(LcgDraws(rng.seed)) && rng.drawn == 1 + |digits|
  {
    hide Draw, LcgDraws, LcgState, DigitByte, Accepted;
    var choice := rng.NextRange(0, 1);
    if choice == 0 {
      var tens := rng.NextRange(1, 9);
      var units := rng.NextRange(0, 9);
      digits := [DigitByte(tens), DigitByte(units)];
    } else {
      var first := rng.NextRange(0, 9);
      digits := [DigitByte(first)];
      if first == 0 {
        var tens := rng.NextRange(1, 9);
        digits := digits + [DigitByte(tens)];
        var units := rng.NextRange(0, 9);
        digits := digits + [DigitByte(units)];
      } else {
        var tens := rng.NextRange(0, 9);
        digits := digits + [DigitByte(tens)];
        var units := rng.NextRange(0, 9);
        digits := digits + [DigitByte(units)];
      }
    }
  }

  method SwapAt(indices: array<nat>, i: nat, j: nat)
    requires i < indices.Length && j < indices.Length
    modifies indices
    ensures indices[..] == Swap(old(indices[..]), i, j)
  {
    indices[i], indices[j] := indices[j], indices[i];
  }

  /** The Fisher-Yates loop, in place. */
  method ShuffleIndices(rng: SimpleRng) returns (shuffled: seq<nat>)
    requires rng.Valid()
    modifies rng
    ensures rng.Valid() && rng.drawn == old(rng.drawn) + 4
    ensures shuffled == Shuffled(LcgDraws(rng.seed), old(rng.drawn), 4)
  {
    hide Draw, LcgDraws, LcgState, Permutation, Swap;
    ghost var u, k := LcgDraws(rng.seed), rng.drawn;
    var indices := new nat[5](i => i);
    assert indices[..] == [0, 1, 2, 3, 4];
    for i := 0 to 4
      invariant rng.Valid() && rng.drawn == k + i
      invariant indices[..] == Shuffled(u, k, i)
    {
      var swapIdx := rng.NextRange(i, 4);
      SwapAt(indices, i, swapIdx);
    }
    shuffled := indices[..];
  }

  /** Digits go to the chosen positions in order; `next` always has one left. */
  method DrawHeader(rng: SimpleRng, positions: seq<nat>, digits: seq<byte>) returns (header: seq<byte>)
    requires rng.Valid() && Left(positions, 0) == |digits| <= 5 && forall d | d in digits :: IsDigit(d)
    modifies rng
    ensures rng.Valid() && rng.drawn == old(rng.drawn) + 5 - |digits|
    ensures header == HeaderFrom(LcgDraws(rng.seed), old(rng.drawn), positions, digits, 0)
  {
    hide *;
    ghost var u, k := LcgDraws(rng.seed), rng.drawn;
    ghost var whole := HeaderFrom(u, k, positions, digits, 0);
    header := [];
    var used := 0;
    assert digits[0..] == digits;
    for i := 0 to 5
      invariant rng.Valid() && used <= |digits| && Left(positions, i) == |digits| - used
      invariant rng.drawn == k + i - used
      invariant header == whole[..i]
      invariant whole[i..] == HeaderFrom(u, rng.drawn, positions, digits[used..], i)
    {
      HeaderUnfolds(u, rng.drawn, positions, digits[used..], i);
      assert whole[i..][1..] == whole[i + 1..] && whole[i..][0] == whole[i];
      if i in positions {
        header := header + [digits[used]];
        used := used + 1;
        assert digits[used - 1..][1..] == digits[used..];
      } else {
        var val := rng.NextRange(0, 245);
        header := header + [Filler(val)];
      }
    }
    assert Left(positions, 5) == 0 by { NoneLeftAtEnd(positions); }
  }

  lemma NoneLeftAtEnd(positions: seq<nat>)
    ensures Left(positions, 5) == 0
  {
  }

  lemma HeaderUnfolds(u: Draws, k: nat, positions: seq<nat>, digits: seq<byte>, i: nat)
    requires i < 5 && |digits| == Left(positions, i) && forall d | d in digits :: IsDigit(d)
    ensures i in positions ==>
      && |digits| == 1 + Left(positions, i + 1)
      && HeaderFrom(u, k, positions, digits, i) == [digits[0]] + HeaderFrom(u, k, positions, digits[1..], i + 1)
    ensures i !in positions ==>
      && |digits| == Left(positions, i + 1)
      && HeaderFrom(u, k, positions, digits, i)
      == [Filler(Draw(u, k, 0, 245))] + HeaderFrom(u, k + 1, positions, digits, i + 1)
  {
    hide Draw, Filler;
  }

  method CollectDigits(s: seq<byte>) returns (digits: seq<byte>)
    ensures digits == Digits(s)
  {
    digits := [];
    for i := 0 to |s|
      invariant Digits(s) == digits + Digits(s[i..])
    {
      if IsDigit(s[i]) {
        assert digits + Digits(s[i..]) == (digits + [s[i]]) + Digits(s[i + 1..]);
        digits := digits + [s[i]];
      }
    }
  }

  method ApplyKey(key: seq<byte>, header: seq<byte>) returns (masked: seq<byte>)
    ensures masked == Mask(key, header)
  {
    masked := header;
    if key != [] {
      for i := 0 to |header|
        invariant |masked| == |header|
        invariant forall j | 0 <= j < |header| :: masked[j] == if j < i then header[j] ^ key[j % |key|] else header[j]
      {
        masked := masked[i := masked[i] ^ key[i % |key|]];
      }
    }
  }

  method DrawGarbage(rng: SimpleRng, n: nat) returns (garbage: seq<byte>)
    requires rng.Valid()
    modifies rng
    ensures rng.Valid() && garbage == Garbage(LcgDraws(rng.seed), old(rng.drawn), n)
  {
    hide Draw;
    ghost var u, k := LcgDraws(rng.seed), rng.drawn;
    garbage := [];
    for i := 0 to n
      invariant rng.Valid() && rng.drawn == k + i
      invariant garbage == Garbage(u, k, i)
    {
      var b := rng.NextRange(0, 255);
      garbage := garbage + [b as bv8];
    }
  }

  /** `generate_dynamic_obfs` with the clock's reading as its seed. */
  method GenerateDynamicObfs(key: seq<byte>, seed: nat) returns (prefix: seq<byte>)
    ensures prefix == Generate(key, LcgDraws(seed))
  {
    hide Mask, Garbage, HeaderFrom, Left, Digits, Value, ChosenDigits, Shuffled, LcgDraws, SimpleRng.Valid;
    var rng := new SimpleRng(seed);
    var digits := DrawDigits(rng);
    var indices := ShuffleIndices(rng);
    var positions := indices[..|digits|];
    assert positions == Positions(LcgDraws(seed));
    var header := DrawHeader(rng, positions, digits);
    var lengthDigits := CollectDigits(header);
    var garbageLen := Value(lengthDigits);
    header := ApplyKey(key, header);
    var garbage := DrawGarbage(rng, garbageLen);
    prefix := header + garbage;
  }
}
