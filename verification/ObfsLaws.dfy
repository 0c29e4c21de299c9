/** What the prefix consists of, byte by byte: the key, the fillers, the garbage and
    the positions of the digits. */
module ObfsLaws {
  import opened Bytes
  import opened Decimals
  import opened Obfs

  // ---- the key ----

  /** Byte `i` of the repeated key. */
  function KeyAt(key: seq<byte>, i: nat): byte
    requires key != []
  {
    key[i % |key|]
  }

  function Masked(b: byte, key: seq<byte>, i: nat): byte
    requires key != []
  {
    ByteXor(b, KeyAt(key, i))
  }

  function ByteXor(x: byte, y: byte): byte {
    x ^ y
  }

  lemma MaskAt(key: seq<byte>, s: seq<byte>, i: nat)
    requires key != [] && i < |s|
    ensures Mask(key, s)[i] == Masked(s[i], key, i)
  {
  }

  /** Raw byte `i` with its key byte removed. */
  function ClearByte(key: seq<byte>, p: seq<byte>, i: nat): byte
    requires key != [] && i < |p|
  {
    Masked(p[i], key, i)
  }

  /** The raw bytes with the header unmasked. */
  function Unmasked(key: seq<byte>, p: seq<byte>): seq<byte>
    requires key != [] && |p| >= 5
  {
    [ClearByte(key, p, 0), ClearByte(key, p, 1), ClearByte(key, p, 2), ClearByte(key, p, 3), ClearByte(key, p, 4)]
      + p[5..]
  }

  lemma MaskIsClear(key: seq<byte>, p: seq<byte>, i: nat)
    requires key != [] && |p| >= 5 && i < 5
    ensures Mask(key, p[..5])[i] == ClearByte(key, p, i)
  {
    MaskAt(key, p[..5], i);
  }

  lemma UnmaskedIsMask(key: seq<byte>, p: seq<byte>)
    requires key != [] && |p| >= 5
    ensures Mask(key, p[..5]) == Unmasked(key, p)[..5] && |Unmasked(key, p)| == |p|
  {
    hide ClearByte, Mask;
    forall i | 0 <= i < 5
      ensures Mask(key, p[..5])[i] == Unmasked(key, p)[..5][i]
    {
      MaskIsClear(key, p, i);
    }
  }

  /** A prefix under a key is one whose raw header, XORed with the key, announces its
      length in the clear. */
  lemma PrefixOnRawBytes(key: seq<byte>, p: seq<byte>)
    requires key != [] && |p| >= 5
    ensures IsPrefix(key, p)
      <==> var clear := Unmasked(key, p)[..5];
           Accepted(Digits(clear)) && |p| == 5 + Value(Digits(clear))
    ensures IsPrefix(key, p) <==> IsPrefix([], Unmasked(key, p))
  {
    UnmaskedIsMask(key, p);
    NoKey(Unmasked(key, p)[..5]);
    hide Digits, Value, Accepted, Mask, Unmasked;
  }

  lemma NoKey(s: seq<byte>)
    ensures Mask([], s) == s
  {
  }

  /** Two keys mask a header alike if and only if they agree where it reads them. */
  lemma KeysThatMaskAlike(k: seq<byte>, l: seq<byte>, header: seq<byte>)
    requires k != [] && l != []
    ensures Mask(k, header) == Mask(l, header) <==> forall i | 0 <= i < |header| :: KeyAt(k, i) == KeyAt(l, i)
  {
    hide Mask, KeyAt, Masked;
    var x, y := Mask(k, header), Mask(l, header);
    forall i | 0 <= i < |header|
      ensures x[i] == y[i] <==> KeyAt(k, i) == KeyAt(l, i)
    {
      MaskAt(k, header, i);
      MaskAt(l, header, i);
      MaskedAlike(header[i], k, l, i);
    }
  }

  lemma MaskedAlike(b: byte, k: seq<byte>, l: seq<byte>, i: nat)
    requires k != [] && l != []
    ensures Masked(b, k, i) == Masked(b, l, i) <==> KeyAt(k, i) == KeyAt(l, i)
  {
    hide KeyAt, ByteXor;
    XorInjective(b, KeyAt(k, i), KeyAt(l, i));
  }

  lemma XorInjective(b: byte, x: byte, y: byte)
    ensures ByteXor(b, x) == ByteXor(b, y) <==> x == y
  {
  }

  /** Without a key the header travels in the clear; with one byte `i` travels XORed
      with byte `i` of the repeated key. */
  lemma GeneratedHeader(key: seq<byte>, u: Draws, i: nat)
    requires i < 5
    ensures i < |Generate(key, u)|
    ensures Generate(key, u)[i] == if key == [] then Header(u)[i] else Masked(Header(u)[i], key, i)
  {
    hide Header, Garbage, Value, ChosenDigits, Masked;
    if key != [] {
      MaskAt(key, Header(u), i);
    }
    hide Mask;
  }

  // ---- the fillers ----

  /** Fillers are exactly the bytes that are no digits, each from one drawn value. */
  lemma FillersAreTheNonDigits(b: byte)
    ensures !IsDigit(b) <==> exists v: nat :: v <= 245 && Filler(v) == b
  {
    if !IsDigit(b) {
      var v := DrawnFor(b);
      assert Filler(v) == b;
    }
  }

  lemma DrawnFor(b: byte) returns (v: nat)
    requires !IsDigit(b)
    ensures v <= 245 && Filler(v) == b
  {
    v := if b < 48 then b as nat else b as nat - 10;
  }

  lemma FillersDiffer(v: nat, w: nat)
    requires v < w <= 245
    ensures Filler(v) != Filler(w)
  {
    FillerNumber(v);
    FillerNumber(w);
    hide Filler;
  }

  lemma FillerNumber(v: nat)
    requires v <= 245
    ensures Filler(v) as nat == if v < 48 then v else v + 10
  {
    ByteOfNumber(if v < 48 then v else v + 10);
  }

  /** A header byte at a position that is not chosen is the filler of its own draw:
      the draws are used in order, one for each such position. */
  lemma {:induction false} FillersAreDrawn(u: Draws, k: nat, positions: seq<nat>, digits: seq<byte>, i: nat, j: nat)
    requires i <= j < 5 && j !in positions
    requires |digits| == Left(positions, i) && forall d | d in digits :: IsDigit(d)
    ensures var skipped := Left(positions, i) - Left(positions, j);
      && 0 <= skipped <= j - i
      && HeaderFrom(u, k, positions, digits, i)[j - i] == Filler(Draw(u, k + (j - i) - skipped, 0, 245))
    decreases j - i
  {
    hide *;
    LeftStep(positions, i);
    HeaderUnfolds(u, k, positions, digits, i);
    if i < j {
      if i in positions {
        FillersAreDrawn(u, k, positions, digits[1..], i + 1, j);
      } else {
        FillersAreDrawn(u, k + 1, positions, digits, i + 1, j);
      }
    }
  }

  /** The digits stand at the positions the shuffle put first. */
  lemma DigitsAreShuffled(u: Draws, j: nat)
    requires j < 5
    ensures var n := |ChosenDigits(u)|;
      IsDigit(Header(u)[j]) <==> j in Shuffled(u, 1 + n, 4)[..n]
  {
    hide HeaderFrom, Shuffled, ChosenDigits, IsDigit;
  }

  // ---- the garbage ----

  /** Garbage byte `i` is the low byte of draw 10 + i: ten draws come before, however
      many digits there are. */
  lemma GarbageIsDrawn(key: seq<byte>, u: Draws, i: nat)
    requires i < Value(ChosenDigits(u))
    ensures |Generate(key, u)| == 5 + Value(ChosenDigits(u))
    ensures Generate(key, u)[5 + i] as nat == u(10 + i) % 0x100
  {
    hide Header, Value, ChosenDigits, Mask;
    var n := |ChosenDigits(u)|;
    var garbage := Garbage(u, ShuffleAt(u) + 4 + (5 - n), Value(ChosenDigits(u)));
    assert garbage[i] == Draw(u, 10 + i, 0, 0xff) as bv8;
    assert Generate(key, u)[5 + i] == garbage[i];
    hide Generate, Garbage;
    ByteOfNumber(u(10 + i) % 0x100);
  }

  // ---- the shuffle ----

  /** The shuffle reaches every order of the positions. */
  lemma {:induction false} EveryOrderOccurs(k: nat, order: seq<nat>, steps: nat) returns (u: Draws)
    requires Permutation(order) && steps <= 4
    ensures Shuffled(u, k, steps)[..steps] == order[..steps]
    ensures steps == 4 ==> Shuffled(u, k, 4) == order
  {
    if steps == 0 {
      u := (j: nat) => 0;
    } else {
      var i := steps - 1;
      var v := EveryOrderOccurs(k, order, i);
      var at := Whereabouts(Shuffled(v, k, i), order, i);
      u := WithDraw(v, k + i, at - i);
      hide *;
      ShuffleReadsItsDraws(u, v, k, i);
      ShuffleStep(u, v, k, i, at);
      SwapExtends(Shuffled(v, k, i), order, i, at);
      if steps == 4 {
        LastFollows(Shuffled(u, k, 4), order);
      }
    }
  }

  function WithDraw(v: Draws, k: nat, value: nat): (u: Draws)
    ensures u(k) == value && forall j | j != k :: u(j) == v(j)
  {
    (j: nat) => if j == k then value else v(j)
  }

  lemma ShuffleStep(u: Draws, v: Draws, k: nat, i: nat, at: nat)
    requires i <= at < 5 && i < 4 && u(k + i) == at - i && Shuffled(u, k, i) == Shuffled(v, k, i)
    ensures Shuffled(u, k, i + 1) == Swap(Shuffled(v, k, i), i, at)
  {
    hide Permutation, Swap;
    SmallMod(at - i, 5 - i);
  }

  lemma SmallMod(a: nat, b: nat)
    requires a < b
    ensures a % b == a
  {
  }

  lemma SwapExtends(ix: seq<nat>, order: seq<nat>, i: nat, at: nat)
    requires Permutation(ix) && Permutation(order) && i <= at < 5 && ix[at] == order[i] && ix[..i] == order[..i]
    ensures Swap(ix, i, at)[..i + 1] == order[..i + 1]
  {
    assert order[..i + 1] == order[..i] + [order[i]];
    assert Swap(ix, i, at)[..i] == ix[..i];
    assert Swap(ix, i, at)[..i + 1] == Swap(ix, i, at)[..i] + [ix[at]];
  }

  /** An element that is not among the first `i` of one order is further on in any
      other order with the same first `i`. */
  lemma Whereabouts(ix: seq<nat>, order: seq<nat>, i: nat) returns (at: nat)
    requires Permutation(ix) && Permutation(order) && i < 5 && ix[..i] == order[..i]
    ensures i <= at < 5 && ix[at] == order[i]
  {
    Everything(ix, order[i]);
    at :| 0 <= at < 5 && ix[at] == order[i];
    assert forall j | 0 <= j < i :: ix[j] == ix[..i][j] == order[..i][j] == order[j];
  }

  lemma Everything(ix: seq<nat>, x: nat)
    requires Permutation(ix) && x < 5
    ensures exists at | 0 <= at < 5 :: ix[at] == x
  {
    var all := ix[0] == x || ix[1] == x || ix[2] == x || ix[3] == x || ix[4] == x;
    assert all;
  }

  lemma LastFollows(ix: seq<nat>, order: seq<nat>)
    requires Permutation(ix) && Permutation(order) && ix[..4] == order[..4]
    ensures ix == order
  {
    Everything(ix, order[4]);
    assert forall j | 0 <= j < 4 :: ix[j] == ix[..4][j] == order[..4][j] == order[j];
  }

  lemma {:induction false} ShuffleReadsItsDraws(u: Draws, v: Draws, k: nat, steps: nat)
    requires steps <= 4 && forall j | k <= j < k + steps :: u(j) == v(j)
    ensures Shuffled(u, k, steps) == Shuffled(v, k, steps)
  {
    if steps > 0 {
      hide Permutation, Swap;
      ShuffleReadsItsDraws(u, v, k, steps - 1);
      assert u(k + steps - 1) == v(k + steps - 1);
    }
  }
}
