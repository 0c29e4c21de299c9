/** What the byte-wise hash tells apart, and the values the program expects of it. */
module HashLaws {
  import opened Bytes
  import opened ConsistentHash

  // ---- the tail ----

  /** The bytes behind the last whole word as a number. */
  function TailNumber(b: seq<byte>): (n: nat)
    requires 0 < |b| < 4
    ensures n < 0x100_0000
  {
    match |b|
    case 1 => b[0] as nat
    case 2 => Number(b[0] as nat, b[1] as nat, 0)
    case _ => Number(b[0] as nat, b[1] as nat, b[2] as nat)
  }

  function Number(d0: nat, d1: nat, d2: nat): (n: nat)
    requires d0 < 0x100 && d1 < 0x100 && d2 < 0x100
    ensures n < 0x100_0000
  {
    d0 + 0x100 * d1 + 0x1_0000 * d2
  }

  /** A tail is mixed in as one number, with a fold by 24 bits. */
  lemma TailMixesItsNumber(h: u32, b: seq<byte>)
    requires 0 < |b| < 4
    ensures MixTail(h, b) == Fold(CMul(CAdd(h, TailNumber(b)), M), 24)
  {
    hide CMul, Fold, CAdd, Number;
    if |b| == 2 {
      NumberAdds(h, b[0] as nat, b[1] as nat, 0);
    } else if |b| == 3 {
      NumberAdds(h, b[0] as nat, b[1] as nat, b[2] as nat);
    }
  }

  lemma NumberAdds(h: u32, d0: nat, d1: nat, d2: nat)
    requires d0 < 0x100 && d1 < 0x100 && d2 < 0x100
    ensures CAdd(CAdd(CAdd(h, 0x1_0000 * d2), 0x100 * d1), d0) == CAdd(h, Number(d0, d1, d2))
    ensures d2 == 0 ==> CAdd(h, 0x1_0000 * d2) == h
  {
    assert CAdd(h, 0) == h;
    hide CAdd;
    SumsAdd(h, 0x1_0000 * d2, 0x100 * d1);
    SumsAdd(h, 0x1_0000 * d2 + 0x100 * d1, d0);
  }

  lemma SumsAdd(h: u32, x: nat, y: nat)
    requires x + y < WORD
    ensures CAdd(CAdd(h, x), y) == CAdd(h, x + y)
  {
  }

  lemma TailUnmixes(x: u32, y: u32)
    requires Fold(CMul(x, M), 24) == Fold(CMul(y, M), 24)
    ensures x == y
  {
    hide CMul, Fold;
    FoldTwice(CMul(x, M), 24);
    FoldTwice(CMul(y, M), 24);
    MultiplierCancels(x);
    MultiplierCancels(y);
  }

  lemma TailNumberIsInjective(a: seq<byte>, b: seq<byte>)
    requires 0 < |a| == |b| < 4 && TailNumber(a) == TailNumber(b)
    ensures a == b
  {
    var zero := [0, 0, 0, 0];
    var x, y := a + zero[|a|..], b + zero[|b|..];
    assert |x| == 4 == |y|;
    TailIsWord(a);
    TailIsWord(b);
    WordIsInjective(x, y);
    assert a == x[..|a|] && b == y[..|b|];
  }

  lemma TailIsWord(b: seq<byte>)
    requires 0 < |b| < 4
    ensures |b + [0, 0, 0, 0][|b|..]| == 4 && Word(b + [0, 0, 0, 0][|b|..]) == TailNumber(b)
  {
    var x := b + [0, 0, 0, 0][|b|..];
    assert x[0] == b[0] && x[3] == 0;
    assert x[1] == (if |b| > 1 then b[1] else 0) && x[2] == (if |b| > 2 then b[2] else 0);
  }

  lemma TailsDiffer(h: u32, a: seq<byte>, b: seq<byte>)
    requires |a| == |b| < 4 && a != b
    ensures MixTail(h, a) != MixTail(h, b)
  {
    hide MixTail, CMul, CAdd, Fold, TailNumber;
    TailMixesItsNumber(h, a);
    TailMixesItsNumber(h, b);
    if MixTail(h, a) == MixTail(h, b) {
      TailUnmixes(CAdd(h, TailNumber(a)), CAdd(h, TailNumber(b)));
      SumCancels(h, TailNumber(a), TailNumber(b));
      TailNumberIsInjective(a, b);
    }
  }

  lemma TailKeepsStatesApart(g: u32, h: u32, b: seq<byte>)
    requires |b| < 4 && MixTail(g, b) == MixTail(h, b)
    ensures g == h
  {
    hide MixTail, CMul, Fold, TailNumber;
    if b == [] {
      NoTail(g);
      NoTail(h);
    } else {
      TailMixesItsNumber(g, b);
      TailMixesItsNumber(h, b);
      TailUnmixes(CAdd(g, TailNumber(b)), CAdd(h, TailNumber(b)));
    }
  }

  // ---- one block ----

  lemma {:induction false} RestKeepsStatesApart(g: u32, h: u32, b: seq<byte>)
    requires HashFrom(g, b) == HashFrom(h, b)
    ensures g == h
    decreases |b|
  {
    hide Mix, Word, MixTail;
    if |b| < 4 {
      TailKeepsStatesApart(g, h, b);
    } else {
      var w := Word(b[..4]);
      RestKeepsStatesApart(Mix(g, w), Mix(h, w), b[4..]);
      MixKeepsStatesApart(g, h, w);
    }
  }

  /** Strings that differ inside one block only, a whole word or the tail. */
  predicate OneBlockApart(a: seq<byte>, b: seq<byte>, start: nat) {
    && |a| == |b| && start < |a| && start % 4 == 0 && a != b && a[..start] == b[..start]
    && (start + 4 <= |a| ==> a[start + 4..] == b[start + 4..])
  }

  lemma {:induction false} BlockCounts(h: u32, a: seq<byte>, b: seq<byte>, start: nat)
    requires OneBlockApart(a, b, start)
    ensures HashFrom(h, a) != HashFrom(h, b)
    decreases start
  {
    hide Mix, Word, MixTail;
    if start > 0 {
      assert a[..4] == a[..start][..4] == b[..start][..4] == b[..4];
      var h1 := Mix(h, Word(a[..4]));
      assert a == a[..4] + a[4..] && b == b[..4] + b[4..];
      assert a[4..][..start - 4] == a[..start][4..] == b[..start][4..] == b[4..][..start - 4];
      assert start + 4 <= |a| ==> a[4..][start..] == a[start + 4..] == b[start + 4..] == b[4..][start..];
      BlockCounts(h1, a[4..], b[4..], start - 4);
    } else if |a| < 4 {
      TailsDiffer(h, a, b);
    } else {
      assert a == a[..4] + a[4..] && b == b[..4] + b[4..];
      var v, w := Word(a[..4]), Word(b[..4]);
      if HashFrom(h, a) == HashFrom(h, b) {
        RestKeepsStatesApart(Mix(h, v), Mix(h, w), a[4..]);
        MixIsInjective(h, v, w);
        WordIsInjective(a[..4], b[..4]);
      }
    }
  }

  /** Strings of one length that differ inside one block only hash differently: no
      byte, in a word or behind the last one, is lost or confused with another. */
  lemma OneBlockApartHashApart(a: seq<byte>, b: seq<byte>, start: nat)
    requires OneBlockApart(a, b, start)
    ensures Hash(a) != Hash(b)
  {
    hide HashFrom, Start;
    BlockCounts(Start(|a|), a, b, start);
  }

  // ---- the expected values ----

  lemma Start0()
    ensures Start(0) == 0xbc9f1d34
  {
    hide Xor;
    XorNothing(SEED);
    assert CMul(0, M) == 0;
  }

  /** "" */
  lemma HashOfEmpty()
    ensures Hash([]) == 3164544308
  {
    hide Mix, Word, MixTail, Start;
    Start0();
    var b0: seq<byte> := [];
    NoTail(0xbc9f1d34);
    assert HashFrom(0xbc9f1d34, b0) == 0xbc9f1d34;
  }

  lemma Start3()
    ensures Start(3) == 0xef72eb8d
  {
    StartXor3();
    hide Xor;
    assert CMul(3, M) == 0x53edf6b9;
  }

  lemma StartXor3()
    ensures Xor(0xbc9f1d34, 0x53edf6b9) == 0xef72eb8d
  {
    hide Xor;
    XorNothing(0);
    XorHex(0x0, 0x0, 0x0, 0xb, 0x5); XorHex(0xb, 0x5, 0xe, 0xc, 0x3);
    XorHex(0xbc, 0x53, 0xef, 0x9, 0xe); XorHex(0xbc9, 0x53e, 0xef7, 0xf, 0xd);
    StartXorLow3();
  }

  lemma StartXorLow3()
    requires Xor(0xbc9f, 0x53ed) == 0xef72
    ensures Xor(0xbc9f1d34, 0x53edf6b9) == 0xef72eb8d
  {
    hide Xor;
    XorHex(0xbc9f, 0x53ed, 0xef72, 0x1, 0xf); XorHex(0xbc9f1, 0x53edf, 0xef72e, 0xd, 0x6);
    XorHex(0xbc9f1d, 0x53edf6, 0xef72eb, 0x3, 0xb); XorHex(0xbc9f1d3, 0x53edf6b, 0xef72eb8, 0x4, 0x9);
  }

  lemma ThreeFold()
    ensures Fold(0xfb82061a, 24) == 0xfb8206e1
  {
    hide Xor, ShiftRight, Pow2;
    WordsAreBelowPow2();
    ShiftDropsLow(0xfb, 0x82061a, 24);
    XorNothing(0xfb8206);
    XorHex(0xfb8206, 0x0, 0xfb8206, 0x1, 0xf); XorHex(0xfb82061, 0xf, 0xfb8206e, 0xa, 0xb);
  }

  lemma ThreeTail()
    ensures MixTail(0xef72eb8d, [49, 50, 51]) == 0xfb8206e1
  {
    hide Fold, TailNumber, MixTail;
    TailMixesItsNumber(0xef72eb8d, [49, 50, 51]);
    ThreeNumber();
    var mixed := CMul(CAdd(0xef72eb8d, 0x333231), M);
    assert mixed == 0xfb82061a;
    ThreeFold();
  }

  lemma ThreeNumber()
    ensures TailNumber([49, 50, 51]) == 0x333231
  {
  }

  /** "123" */
  lemma HashOfThree()
    ensures Hash([49, 50, 51]) == 4219602657
  {
    hide Mix, Word, MixTail, Start;
    Start3();
    var b0: seq<byte> := [49, 50, 51];
    ThreeTail();
    assert HashFrom(0xef72eb8d, b0) == 0xfb8206e1;
  }

  lemma Start7()
    ensures Start(7) == 0xd21f8831
  {
    StartXor7();
    hide Xor;
    assert CMul(7, M) == 0x6e809505;
  }

  lemma StartXor7()
    ensures Xor(0xbc9f1d34, 0x6e809505) == 0xd21f8831
  {
    hide Xor;
    XorNothing(0);
    XorHex(0x0, 0x0, 0x0, 0xb, 0x6); XorHex(0xb, 0x6, 0xd, 0xc, 0xe);
    XorHex(0xbc, 0x6e, 0xd2, 0x9, 0x8); XorHex(0xbc9, 0x6e8, 0xd21, 0xf, 0x0);
    StartXorLow7();
  }

  lemma StartXorLow7()
    requires Xor(0xbc9f, 0x6e80) == 0xd21f
    ensures Xor(0xbc9f1d34, 0x6e809505) == 0xd21f8831
  {
    hide Xor;
    XorHex(0xbc9f, 0x6e80, 0xd21f, 0x1, 0x9); XorHex(0xbc9f1, 0x6e809, 0xd21f8, 0xd, 0x5);
    XorHex(0xbc9f1d, 0x6e8095, 0xd21f88, 0x3, 0x0); XorHex(0xbc9f1d3, 0x6e80950, 0xd21f883, 0x4, 0x5);
  }

  lemma SevenFold1()
    ensures Fold(0xcbdef446, 16) == 0xcbde3f98
  {
    hide Xor, ShiftRight, Pow2;
    WordsAreBelowPow2();
    ShiftDropsLow(0xcbde, 0xf446, 16);
    XorNothing(0xcbde);
    XorHex(0xcbde, 0x0, 0xcbde, 0xf, 0xc); XorHex(0xcbdef, 0xc, 0xcbde3, 0x4, 0xb);
    XorHex(0xcbdef4, 0xcb, 0xcbde3f, 0x4, 0xd); XorHex(0xcbdef44, 0xcbd, 0xcbde3f9, 0x6, 0xe);
  }

  lemma SevenFold()
    ensures Fold(0x357f5fb7, 24) == 0x357f5f82
  {
    hide Xor, ShiftRight, Pow2;
    WordsAreBelowPow2();
    ShiftDropsLow(0x35, 0x7f5fb7, 24);
    XorNothing(0x357f5f);
    XorHex(0x357f5f, 0x0, 0x357f5f, 0xb, 0x3); XorHex(0x357f5fb, 0x3, 0x357f5f8, 0x7, 0x5);
  }

  lemma SevenWord1()
    ensures Word([49, 50, 51, 52]) == 0x34333231 && Mix(0xd21f8831, 0x34333231) == 0xcbde3f98
  {
    hide Fold;
    var mixed := CMul(CAdd(0xd21f8831, 0x34333231), M);
    assert mixed == 0xcbdef446;
    SevenFold1();
  }

  lemma SevenTail()
    ensures MixTail(0xcbde3f98, [53, 54, 55]) == 0x357f5f82
  {
    hide Fold, TailNumber, MixTail;
    TailMixesItsNumber(0xcbde3f98, [53, 54, 55]);
    SevenNumber();
    var mixed := CMul(CAdd(0xcbde3f98, 0x373635), M);
    assert mixed == 0x357f5fb7;
    SevenFold();
  }

  lemma SevenNumber()
    ensures TailNumber([53, 54, 55]) == 0x373635
  {
  }

  /** "1234567" */
  lemma HashOfSeven()
    ensures Hash([49, 50, 51, 52, 53, 54, 55]) == 897539970
  {
    hide Mix, Word, MixTail, Start;
    Start7();
    var b0: seq<byte> := [49, 50, 51, 52, 53, 54, 55];
    SevenWord1();
    var b1 := b0[4..];
    assert b0[..4] == [49, 50, 51, 52] && b1 == [53, 54, 55];
    assert HashFrom(0xd21f8831, b0) == HashFrom(0xcbde3f98, b1);
    SevenTail();
    assert HashFrom(0xcbde3f98, b1) == 0x357f5f82;
  }

  lemma Start6()
    ensures Start(6) == 0x1b44f046
  {
    StartXor6();
    hide Xor;
    assert CMul(6, M) == 0xa7dbed72;
  }

  lemma StartXor6()
    ensures Xor(0xbc9f1d34, 0xa7dbed72) == 0x1b44f046
  {
    hide Xor;
    XorNothing(0);
    XorHex(0x0, 0x0, 0x0, 0xb, 0xa); XorHex(0xb, 0xa, 0x1, 0xc, 0x7);
    XorHex(0xbc, 0xa7, 0x1b, 0x9, 0xd); XorHex(0xbc9, 0xa7d, 0x1b4, 0xf, 0xb);
    StartXorLow6();
  }

  lemma StartXorLow6()
    requires Xor(0xbc9f, 0xa7db) == 0x1b44
    ensures Xor(0xbc9f1d34, 0xa7dbed72) == 0x1b44f046
  {
    hide Xor;
    XorHex(0xbc9f, 0xa7db, 0x1b44, 0x1, 0xe); XorHex(0xbc9f1, 0xa7dbe, 0x1b44f, 0xd, 0xd);
    XorHex(0xbc9f1d, 0xa7dbed, 0x1b44f0, 0x3, 0x7); XorHex(0xbc9f1d3, 0xa7dbed7, 0x1b44f04, 0x4, 0x2);
  }

  lemma SixFold1()
    ensures Fold(0xf5b36b55, 16) == 0xf5b39ee6
  {
    hide Xor, ShiftRight, Pow2;
    WordsAreBelowPow2();
    ShiftDropsLow(0xf5b3, 0x6b55, 16);
    XorNothing(0xf5b3);
    XorHex(0xf5b3, 0x0, 0xf5b3, 0x6, 0xf); XorHex(0xf5b36, 0xf, 0xf5b39, 0xb, 0x5);
    XorHex(0xf5b36b, 0xf5, 0xf5b39e, 0x5, 0xb); XorHex(0xf5b36b5, 0xf5b, 0xf5b39ee, 0x5, 0x3);
  }

  lemma SixFold()
    ensures Fold(0xa9fa4758, 24) == 0xa9fa47f1
  {
    hide Xor, ShiftRight, Pow2;
    WordsAreBelowPow2();
    ShiftDropsLow(0xa9, 0xfa4758, 24);
    XorNothing(0xa9fa47);
    XorHex(0xa9fa47, 0x0, 0xa9fa47, 0x5, 0xa); XorHex(0xa9fa475, 0xa, 0xa9fa47f, 0x8, 0x9);
  }

  lemma SixWord1()
    ensures Word([49, 50, 51, 97]) == 0x61333231 && Mix(0x1b44f046, 0x61333231) == 0xf5b39ee6
  {
    hide Fold;
    var mixed := CMul(CAdd(0x1b44f046, 0x61333231), M);
    assert mixed == 0xf5b36b55;
    SixFold1();
  }

  lemma SixTail()
    ensures MixTail(0xf5b39ee6, [98, 99]) == 0xa9fa47f1
  {
    hide Fold, TailNumber, MixTail;
    TailMixesItsNumber(0xf5b39ee6, [98, 99]);
    SixNumber();
    var mixed := CMul(CAdd(0xf5b39ee6, 0x6362), M);
    assert mixed == 0xa9fa4758;
    SixFold();
  }

  lemma SixNumber()
    ensures TailNumber([98, 99]) == 0x6362
  {
  }

  /** "123abc" */
  lemma HashOfSix()
    ensures Hash([49, 50, 51, 97, 98, 99]) == 2851751921
  {
    hide Mix, Word, MixTail, Start;
    Start6();
    var b0: seq<byte> := [49, 50, 51, 97, 98, 99];
    SixWord1();
    var b1 := b0[4..];
    assert b0[..4] == [49, 50, 51, 97] && b1 == [98, 99];
    assert HashFrom(0x1b44f046, b0) == HashFrom(0xf5b39ee6, b1);
    SixTail();
    assert HashFrom(0xf5b39ee6, b1) == 0xa9fa47f1;
  }

  lemma Start9()
    ensures Start(9) == 0x4756f91f
  {
    StartXor9();
    hide Xor;
    assert CMul(9, M) == 0xfbc9e42b;
  }

  lemma StartXor9()
    ensures Xor(0xbc9f1d34, 0xfbc9e42b) == 0x4756f91f
  {
    hide Xor;
    XorNothing(0);
    XorHex(0x0, 0x0, 0x0, 0xb, 0xf); XorHex(0xb, 0xf, 0x4, 0xc, 0xb);
    XorHex(0xbc, 0xfb, 0x47, 0x9, 0xc); XorHex(0xbc9, 0xfbc, 0x475, 0xf, 0x9);
    StartXorLow9();
  }

  lemma StartXorLow9()
    requires Xor(0xbc9f, 0xfbc9) == 0x4756
    ensures Xor(0xbc9f1d34, 0xfbc9e42b) == 0x4756f91f
  {
    hide Xor;
    XorHex(0xbc9f, 0xfbc9, 0x4756, 0x1, 0xe); XorHex(0xbc9f1, 0xfbc9e, 0x4756f, 0xd, 0x4);
    XorHex(0xbc9f1d, 0xfbc9e4, 0x4756f9, 0x3, 0x2); XorHex(0xbc9f1d3, 0xfbc9e42, 0x4756f91, 0x4, 0xb);
  }

  lemma NineFold1()
    ensures Fold(0x7b9a1685, 16) == 0x7b9a6d1f
  {
    hide Xor, ShiftRight, Pow2;
    WordsAreBelowPow2();
    ShiftDropsLow(0x7b9a, 0x1685, 16);
    XorNothing(0x7b9a);
    XorHex(0x7b9a, 0x0, 0x7b9a, 0x1, 0x7); XorHex(0x7b9a1, 0x7, 0x7b9a6, 0x6, 0xb);
    XorHex(0x7b9a16, 0x7b, 0x7b9a6d, 0x8, 0x9); XorHex(0x7b9a168, 0x7b9, 0x7b9a6d1, 0x5, 0xa);
  }

  lemma NineFold2()
    ensures Fold(0xf307db80, 16) == 0xf3072887
  {
    hide Xor, ShiftRight, Pow2;
    WordsAreBelowPow2();
    ShiftDropsLow(0xf307, 0xdb80, 16);
    XorNothing(0xf307);
    XorHex(0xf307, 0x0, 0xf307, 0xd, 0xf); XorHex(0xf307d, 0xf, 0xf3072, 0xb, 0x3);
    XorHex(0xf307db, 0xf3, 0xf30728, 0x8, 0x0); XorHex(0xf307db8, 0xf30, 0xf307288, 0x0, 0x7);
  }

  lemma NineFold()
    ensures Fold(0x8547c2aa, 24) == 0x8547c22f
  {
    hide Xor, ShiftRight, Pow2;
    WordsAreBelowPow2();
    ShiftDropsLow(0x85, 0x47c2aa, 24);
    XorNothing(0x8547c2);
    XorHex(0x8547c2, 0x0, 0x8547c2, 0xa, 0x8); XorHex(0x8547c2a, 0x8, 0x8547c22, 0xa, 0x5);
  }

  lemma NineWord1()
    ensures Word([104, 111, 111, 114]) == 0x726f6f68 && Mix(0x4756f91f, 0x726f6f68) == 0x7b9a6d1f
  {
    hide Fold;
    var mixed := CMul(CAdd(0x4756f91f, 0x726f6f68), M);
    assert mixed == 0x7b9a1685;
    NineFold1();
  }

  lemma NineWord2()
    ensures Word([97, 121, 104, 117]) == 0x75687961 && Mix(0x7b9a6d1f, 0x75687961) == 0xf3072887
  {
    hide Fold;
    var mixed := CMul(CAdd(0x7b9a6d1f, 0x75687961), M);
    assert mixed == 0xf307db80;
    NineFold2();
  }

  lemma NineTail()
    ensures MixTail(0xf3072887, [103]) == 0x8547c22f
  {
    hide Fold, TailNumber, MixTail;
    TailMixesItsNumber(0xf3072887, [103]);
    NineNumber();
    var mixed := CMul(CAdd(0xf3072887, 0x67), M);
    assert mixed == 0x8547c2aa;
    NineFold();
  }

  lemma NineNumber()
    ensures TailNumber([103]) == 0x67
  {
  }

  /** "hoorayhug" */
  lemma HashOfNine()
    ensures Hash([104, 111, 111, 114, 97, 121, 104, 117, 103]) == 2236072495
  {
    hide Mix, Word, MixTail, Start;
    Start9();
    var b0: seq<byte> := [104, 111, 111, 114, 97, 121, 104, 117, 103];
    NineWord1();
    var b1 := b0[4..];
    assert b0[..4] == [104, 111, 111, 114] && b1 == [97, 121, 104, 117, 103];
    assert HashFrom(0x4756f91f, b0) == HashFrom(0x7b9a6d1f, b1);
    NineWord2();
    var b2 := b1[4..];
    assert b1[..4] == [97, 121, 104, 117] && b2 == [103];
    assert HashFrom(0x7b9a6d1f, b1) == HashFrom(0xf3072887, b2);
    NineTail();
    assert HashFrom(0xf3072887, b2) == 0x8547c22f;
  }
}
