/** Which lengths the generator announces under its own random numbers. The
    digits it draws depend on the high halves of consecutive states; seeds that
    differ by suitable multiples of fixed offsets change one digit at a time. */
module ObfsSeeds {
  import opened Bytes
  import opened Decimals
  import opened Obfs

  lemma Quotient(s: nat, k: int, next: nat)
    requires s * LCG_MUL + 1 == TWO64 * k + next && next < TWO64
    ensures LcgStep(s) == next
  {
    Remainder(s * LCG_MUL + 1, TWO64, k, next);
  }

  lemma HighPart(s: nat, m: nat, q: nat, d: nat, low: nat)
    requires s == TWO32 * (m * q + d) + low && low < TWO32 && d < m
    ensures s / TWO32 % m == d
  {
    var high := m * q + d;
    assert s / TWO32 == high;
    Remainder(high, m, q, d);
  }

  lemma Remainder(n: nat, m: nat, q: int, d: nat)
    requires n == m * q + d && d < m
    ensures n % m == d
  {
    var e := n / m - q;
    assert n == m * (n / m) + n % m;
    assert m * e == d - n % m;
    Multiple(m, e);
  }

  lemma Multiple(m: nat, e: int)
    ensures e >= 1 ==> m * e >= m
    ensures e <= -1 ==> m * e + m <= 0
  {
  }

  lemma FirstDraws(seed: nat)
    ensures var u, s1 := LcgDraws(seed), LcgStep(seed);
      var s2 := LcgStep(s1);
      var s3 := LcgStep(s2);
      && u(0) == s1 / TWO32 && u(1) == s2 / TWO32 && u(2) == s3 / TWO32 && u(3) == LcgStep(s3) / TWO32
  {
    hide LcgStep;
    assert LcgState(seed, 1) == LcgStep(LcgState(seed, 0));
    assert LcgState(seed, 3) == LcgStep(LcgState(seed, 2));
    assert LcgState(seed, 4) == LcgStep(LcgState(seed, 3));
  }

  // ---- two digits: the first one counts from 1, so `d0` is one less ----

  function Two0(d0: nat, d1: nat): int {
    10004396670445304344 - 4196701920659499 * d0 + 7750511190838647 * d1
  }

  function Two1(d0: nat, d1: nat): int {
    10590507830240484921 - 22483311980790927 * d0 + 28045320391288555 * d1
  }

  function Two2(d0: nat, d1: nat): int {
    2573833357244929798 - 994272040123939 * d0 + 19011080036953167 * d1
  }

  function Two3(d0: nat, d1: nat): int {
    6135612641248183823 - 16030664779958567 * d0 - 8298946264040733 * d1
  }

  lemma TwoStep1(d0: nat, d1: nat)
    requires d0 <= 8 && d1 <= 9
    ensures 0 <= Two0(d0, d1) && LcgStep(Two0(d0, d1)) == Two1(d0, d1)
    ensures Two1(d0, d1) / TWO32 % 2 == 0
  {
    var k := 3451522013516481175 - 1447864328102298 * d0 + 2673930360059855 * d1;
    var q := 1232897377 - 2617402 * d0 + 3264905 * d1;
    var low := 3162119737 + 179057 * d0 - 7805205 * d1;
    Quotient(Two0(d0, d1), k, Two1(d0, d1));
    HighPart(Two1(d0, d1), 2, q, 0, low);
  }

  lemma TwoStep2(d0: nat, d1: nat)
    requires d0 <= 8 && d1 <= 9
    ensures 0 <= Two1(d0, d1) && LcgStep(Two1(d0, d1)) == Two2(d0, d1)
    ensures Two2(d0, d1) / TWO32 % 9 == d0
  {
    var k := 3653730666075906063 - 7756754234636381 * d0 + 9675650006223363 * d1;
    var q := 66585253 - 25722 * d0 + 491818 * d1;
    var low := 966956806 + 3998173 * d0 + 6696015 * d1;
    Quotient(Two1(d0, d1), k, Two2(d0, d1));
    HighPart(Two2(d0, d1), 9, q, d0, low);
  }

  lemma TwoStep3(d0: nat, d1: nat)
    requires d0 <= 8 && d1 <= 9
    ensures 0 <= Two2(d0, d1) && LcgStep(Two2(d0, d1)) == Two3(d0, d1)
    ensures Two3(d0, d1) / TWO32 % 10 == d1
  {
    var k := 887973836333149523 - 343024366881583 * d0 + 6558832422360048 * d1;
    var q := 142855864 - 373243 * d0 - 193225 * d1;
    var low := 2029946383 + 4650713 * d0 - 1312029 * d1;
    Quotient(Two2(d0, d1), k, Two3(d0, d1));
    HighPart(Two3(d0, d1), 10, q, d1, low);
  }

  lemma TwoDigits(d0: nat, d1: nat) returns (seed: nat)
    requires d0 <= 8 && d1 <= 9
    ensures seed < TWO64
    ensures var u := LcgDraws(seed); u(0) % 2 == 0 && u(1) % 9 == d0 && u(2) % 10 == d1
  {
    TwoStep1(d0, d1);
    TwoStep2(d0, d1);
    TwoStep3(d0, d1);
    seed := Two0(d0, d1);
    assert seed < TWO64;
    hide Two0, Two1, Two2, Two3, LcgStep, LcgDraws;
    FirstDraws(seed);
  }

  // ---- three digits ----

  function Three0(d0: nat, d1: nat, d2: nat): int {
    12832366802070918620 + 91154029745546454 * d0 - 213535217665649818 * d1 - 112494680256469554 * d2
  }

  function Three1(d0: nat, d1: nat, d2: nat): int {
    10162069341097474989 - 77914864309328994 * d0 + 95913294088553198 * d1 + 135045033245726518 * d2
  }

  function Three2(d0: nat, d1: nat, d2: nat): int {
    14405065363201773674 - 140147913874201402 * d0 + 73830401911969238 * d1 - 81731123119808898 * d2
  }

  function Three3(d0: nat, d1: nat, d2: nat): int {
    16287823420945021091 - 224662051233550130 * d0 - 46018336906002274 * d1 + 166541909562973734 * d2
  }

  function Three4(d0: nat, d1: nat, d2: nat): int {
    1438579968931844520 - 10299846993295818 * d0 - 127112134099223098 * d1 + 28840752621446830 * d2
  }

  lemma ThreeStep1(d0: nat, d1: nat, d2: nat)
    requires d0 <= 9 && d1 <= 9 && d2 <= 9
    ensures 0 <= Three0(d0, d1, d2) && LcgStep(Three0(d0, d1, d2)) == Three1(d0, d1, d2)
    ensures Three1(d0, d1, d2) / TWO32 % 2 == 1
  {
    var k := 4427173168144124182 + 31448187297184179 * d0 - 73669760277629843 * d1 - 38810722735109218 * d2;
    var q := 1183020572 - 9070484 * d0 + 11165777 * d1 + 15721311 * d2;
    var low := 2332081069 - 31546466 * d0 - 10304786 * d1 + 55236406 * d2;
    Quotient(Three0(d0, d1, d2), k, Three1(d0, d1, d2));
    HighPart(Three1(d0, d1, d2), 2, q, 1, low);
  }

  lemma ThreeStep2(d0: nat, d1: nat, d2: nat)
    requires d0 <= 9 && d1 <= 9 && d2 <= 9
    ensures 0 <= Three1(d0, d1, d2) && LcgStep(Three1(d0, d1, d2)) == Three2(d0, d1, d2)
    ensures Three2(d0, d1, d2) / TWO32 % 10 == d0
  {
    var k := 3505919166249698192 - 26880668390353673 * d0 + 33090135951275347 * d1 + 46590606152259168 * d2;
    var q := 335394064 - 3263073 * d0 + 1718998 * d1 - 1902951 * d2;
    var low := 1676464234 + 25437382 * d0 - 6924842 * d1 - 10903938 * d2;
    Quotient(Three1(d0, d1, d2), k, Three2(d0, d1, d2));
    HighPart(Three2(d0, d1, d2), 10, q, d0, low);
  }

  lemma ThreeStep3(d0: nat, d1: nat, d2: nat)
    requires d0 <= 9 && d1 <= 9 && d2 <= 9
    ensures 0 <= Three2(d0, d1, d2) && LcgStep(Three2(d0, d1, d2)) == Three3(d0, d1, d2)
    ensures Three3(d0, d1, d2) / TWO32 % 10 == d1
  {
    var k := 4969754983237950080 - 48351102602140930 * d0 + 25471526755704754 * d1 - 28197279649137489 * d2;
    var q := 379230441 - 5230821 * d0 - 1071448 * d1 + 3877606 * d2;
    var low := 3518445731 + 28750030 * d0 - 7323490 * d1 - 4760026 * d2;
    Quotient(Three2(d0, d1, d2), k, Three3(d0, d1, d2));
    HighPart(Three3(d0, d1, d2), 10, q, d1, low);
  }

  lemma ThreeStep4(d0: nat, d1: nat, d2: nat)
    requires d0 <= 9 && d1 <= 9 && d2 <= 9
    ensures 0 <= Three3(d0, d1, d2) && LcgStep(Three3(d0, d1, d2)) == Three4(d0, d1, d2)
    ensures Three4(d0, d1, d2) / TWO32 % 10 == d2
  {
    var k := 5619307484652021271 - 77508523599939477 * d0 - 15876349977775817 * d1 + 57457044733921865 * d2;
    var q := 33494550 - 239812 * d0 - 2959560 * d1 + 671501 * d2;
    var low := 489476520 - 21412298 * d0 + 6274502 * d1 - 15833426 * d2;
    Quotient(Three3(d0, d1, d2), k, Three4(d0, d1, d2));
    HighPart(Three4(d0, d1, d2), 10, q, d2, low);
  }

  lemma ThreeDigits(d0: nat, d1: nat, d2: nat) returns (seed: nat)
    requires d0 <= 9 && d1 <= 9 && d2 <= 9
    ensures seed < TWO64
    ensures var u := LcgDraws(seed); u(0) % 2 == 1 && u(1) % 10 == d0 && u(2) % 10 == d1 && u(3) % 10 == d2
  {
    ThreeStep1(d0, d1, d2);
    ThreeStep2(d0, d1, d2);
    ThreeStep3(d0, d1, d2);
    ThreeStep4(d0, d1, d2);
    seed := Three0(d0, d1, d2);
    assert seed < TWO64;
    hide Three0, Three1, Three2, Three3, Three4, LcgStep, LcgDraws;
    FirstDraws(seed);
  }

  /** Every length the receiver accepts is announced under some clock reading. */
  lemma EveryLengthIsAnnounced(key: seq<byte>, length: nat) returns (seed: nat)
    requires 10 <= length <= 999
    ensures seed < TWO64 && |Generate(key, LcgDraws(seed))| == 5 + length
  {
    hide Header, Garbage, Mask, Value, ChosenDigits, LcgDraws;
    var d0, d1, d2 := DecimalDigits(length);
    if length < 100 {
      seed := TwoDigits(d1 - 1, d2);
    } else {
      seed := ThreeDigits(d0, d1, d2);
    }
    AnnouncedLength(LcgDraws(seed));
  }
}
