/** The table of the message digest is that of the sines. What is known of the sine and the cosine
    is their power series at 1 and the addition theorem; the rest is done in integers, scaled by
    10^23. */
module Md5Sines {
  import opened Bytes
  import opened Md5Spec

  // --------------------------------------------------- the power series

  /** 1 / (2j + 1)! */
  function SineTerm(j: nat): real {
    if j == 0 then 1.0 else SineTerm(j - 1) / (2 * j * (2 * j + 1)) as real
  }

  /** 1 / (2j)! */
  function CosineTerm(j: nat): real {
    if j == 0 then 1.0 else CosineTerm(j - 1) / ((2 * j - 1) * (2 * j)) as real
  }

  /** The first `k` terms of 1 - 1/3! + 1/5! - ... */
  function SineSum(k: nat): real {
    if k == 0 then 0.0 else SineSum(k - 1) + (if k % 2 == 1 then SineTerm(k - 1) else -SineTerm(k - 1))
  }

  /** The first `k` terms of 1 - 1/2! + 1/4! - ... */
  function CosineSum(k: nat): real {
    if k == 0 then 0.0 else CosineSum(k - 1) + (if k % 2 == 1 then CosineTerm(k - 1) else -CosineTerm(k - 1))
  }

  /** The addition theorem. */
  function SineOfSum(s: real, c: real, s1: real, c1: real): real { s * c1 + c * s1 }

  function CosineOfSum(s: real, c: real, s1: real, c1: real): real { c * c1 - s * s1 }

  /** `s` and `c` are the sine and the cosine at the natural numbers: at 1 the sums of their
      series are below and above them in turn, and from there the addition theorem goes on. */
  ghost predicate SineAndCosine(s: nat -> real, c: nat -> real) {
    && s(0) == 0.0 && c(0) == 1.0
    && (forall n: nat :: s(n + 1) == SineOfSum(s(n), c(n), s(1), c(1)) && c(n + 1) == CosineOfSum(s(n), c(n), s(1), c(1)))
    && (forall k: nat :: SineSum(2 * k + 2) <= s(1) <= SineSum(2 * k + 1))
    && (forall k: nat :: CosineSum(2 * k + 2) <= c(1) <= CosineSum(2 * k + 1))
  }

  // --------------------------------------------------- fixed-point numbers

  const SCALE: int := 1000_0000_0000_0000_0000_0000
  const SINE_1: int := 841_4709_8480_7896_5066_5250
  const COSINE_1: int := 540_3023_0586_8139_7174_0094

  function Scaled(v: real): real { v * 100000000000000000000000.0 }

  /** Scaled, `v` is as near to `p` as `e`. */
  predicate Near(v: real, p: int, e: int) {
    (p - e) as real <= Scaled(v) <= (p + e) as real
  }

  lemma SineTerms()
    ensures SineSum(12) >= (SINE_1 - 1) as real / SCALE as real && SineSum(13) <= (SINE_1 + 1) as real / SCALE as real
  {
    assert SineTerm(1) == 1.0 / 6.0;
    assert SineTerm(2) == 1.0 / 120.0;
    assert SineTerm(3) == 1.0 / 5040.0;
    assert SineTerm(4) == 1.0 / 362880.0;
    assert SineTerm(5) == 1.0 / 39916800.0;
    assert SineTerm(6) == 1.0 / 6227020800.0;
    assert SineTerm(7) == 1.0 / 1307674368000.0;
    assert SineTerm(8) == 1.0 / 355687428096000.0;
    assert SineTerm(9) == 1.0 / 121645100408832000.0;
    assert SineTerm(10) == 1.0 / 51090942171709440000.0;
    assert SineTerm(11) == 1.0 / 25852016738884976640000.0;
    assert SineTerm(12) == 1.0 / 15511210043330985984000000.0;
  }

  lemma CosineTerms()
    ensures CosineSum(12) >= (COSINE_1 - 1) as real / SCALE as real && CosineSum(13) <= (COSINE_1 + 1) as real / SCALE as real
  {
    assert CosineTerm(1) == 1.0 / 2.0;
    assert CosineTerm(2) == 1.0 / 24.0;
    assert CosineTerm(3) == 1.0 / 720.0;
    assert CosineTerm(4) == 1.0 / 40320.0;
    assert CosineTerm(5) == 1.0 / 3628800.0;
    assert CosineTerm(6) == 1.0 / 479001600.0;
    assert CosineTerm(7) == 1.0 / 87178291200.0;
    assert CosineTerm(8) == 1.0 / 20922789888000.0;
    assert CosineTerm(9) == 1.0 / 6402373705728000.0;
    assert CosineTerm(10) == 1.0 / 2432902008176640000.0;
    assert CosineTerm(11) == 1.0 / 1124000727777607680000.0;
    assert CosineTerm(12) == 1.0 / 620448401733239439360000.0;
  }

  lemma SeriesAtOne(s: nat -> real, c: nat -> real)
    requires SineAndCosine(s, c)
    ensures Near(s(1), SINE_1, 1) && Near(c(1), COSINE_1, 1)
  {
    hide SineSum, CosineSum;
    assert SineSum(2 * 5 + 2) <= s(1) && CosineSum(2 * 5 + 2) <= c(1);
    assert s(1) <= SineSum(2 * 6 + 1) && c(1) <= CosineSum(2 * 6 + 1);
    SineTerms();
    CosineTerms();
  }

  // --------------------------------------------------- going on from 1

  /** Sine and cosine, scaled, and how far off they may be. */
  datatype Fix = Fix(s: int, c: int, e: int)

  function Fixed(n: nat): Fix {
    match n
    case 0 => Fix(0, 1000_0000_0000_0000_0000_0000, 0)
    case 1 => Fix(841_4709_8480_7896_5066_5250, 540_3023_0586_8139_7174_0094, 8)
    case 2 => Fix(909_2974_2682_5681_6953_9602, -416_1468_3654_7142_3869_9757, 20)
    case 3 => Fix(141_1200_0805_9867_2221_0074, -989_9924_9660_0445_4572_7158, 36)
    case 4 => Fix(-756_8024_9530_7928_2513_7265, -653_6436_2086_3611_9146_3918, 59)
    case 5 => Fix(-958_9242_7466_3138_4688_9318, 283_6621_8546_3226_2644_6663, 91)
    case 6 => Fix(-279_4154_9819_8925_8728_1159, 960_1702_8665_0366_0205_4566, 136)
    case 7 => Fix(656_9865_9871_8789_0903_9698, 753_9022_5434_3304_6381_4123, 199)
    case 8 => Fix(989_3582_4662_3381_7778_0814, -145_5000_3380_8613_5258_6881, 287)
    case 9 => Fix(412_1184_8524_1756_5697_5631, -911_1302_6188_4676_9883_6829, 410)
    case 10 => Fix(-544_0211_1088_9369_8134_0472, -839_0715_2907_6452_4522_5890, 582)
    case 11 => Fix(-999_9902_0655_0703_4570_5159, 4_4256_9798_8050_7857_4830, 823)
    case 12 => Fix(-536_5729_1800_0434_9716_6544, 843_8539_5873_2492_1046_5394, 1161)
    case 13 => Fix(420_1670_3682_6640_9218_6890, 907_4467_8145_0196_2138_5273, 1634)
    case 14 => Fix(990_6073_5569_4870_3078_7536, 136_7372_1820_7833_5942_4900, 2296)
    case 15 => Fix(650_2878_4015_7116_8658_2980, -759_6879_1285_8821_2738_4811, 3223)
    case 16 => Fix(-287_9033_1666_5065_2947_8439, -957_6594_8032_3384_6418_9967, 4521)
    case 17 => Fix(-961_3974_9187_9556_8572_6163, -275_1633_3805_1596_9222_2043, 6338)
    case 18 => Fix(-750_9872_4677_1676_1037_5023, 660_3167_0824_4080_1448_1604, 8882)
    case 19 => Fix(149_8772_0966_2952_3297_5414, 988_7046_1818_6669_2528_9838, 1_2443)
    case 20 => Fix(912_9452_5072_7627_6543_7606, 408_0820_6181_3391_9860_6236, 1_7429)
    case 21 => Fix(836_6556_3853_6056_0318_6653, -547_7292_6022_4268_4213_8419, 2_4409)
    case 22 => Fix(-8_8513_0929_0403_8759_2160, -999_9608_2639_4637_1264_5418, 3_4181)
    case 23 => Fix(-846_2204_0417_5170_6352_4128, -532_8330_2033_3397_5552_1584, 4_7862)
    case 24 => Fix(-905_5783_6200_6623_8451_3584, 424_1790_0733_6996_9759_3696, 6_7015)
    case 25 => Fix(-132_3517_5009_7773_0289_0212, 991_2028_1186_3473_5980_8328, 9_3829)
    case 26 => Fix(762_5584_5047_9602_7375_1574, 646_9193_2232_8640_3427_2147, 13_1369)
    case 27 => Fix(956_3759_2840_4503_0134_3236, -292_1388_0873_3836_1933_7129, 18_3925)
    case 28 => Fix(270_9057_8830_7869_0199_8645, -962_6058_6631_3566_6019_7541, 25_7503)
    case 29 => Fix(-663_6338_8421_2967_5021_5108, -748_0575_2968_9000_3517_6527, 36_0513)
    case 30 => Fix(-988_0316_2409_2861_7899_8777, 154_2514_4988_7584_0507_1853, 50_4727)
    case 31 => Fix(-404_0376_4532_3065_0060_4890, 914_7423_5780_4531_2789_6238, 70_6626)
    case 32 => Fix(551_4266_8124_1690_5506_6143, 834_2233_6050_6510_2722_1560, 98_9285)
    case 33 => Fix(999_9118_6010_7267_1457_2807, -13_2767_4722_3059_4789_1507, 138_5007)
    case 34 => Fix(529_0826_8612_0023_8208_3260, -848_5702_7478_4605_1865_9988, 193_9018)
    case 35 => Fix(-428_1826_6949_6151_0044_0662, -903_6922_0509_1506_7598_4736, 271_4634)
    case 36 => Fix(-991_7788_5344_3115_7368_3527, -127_9636_8962_7404_6810_2848, 380_0496)
    case 37 => Fix(-643_5381_3335_6999_4606_8580, 765_4140_5194_5343_3564_9098, 532_0703)
    case 38 => Fix(296_3685_7870_9385_3173_9213, 955_0736_4404_7294_8575_8659, 744_8993)
    case 39 => Fix(963_7953_8628_4087_7532_6061, 266_6429_3235_9937_2515_2699, 1042_8599)
    case 40 => Fix(745_1131_6047_9348_7869_8782, -666_9380_6165_2261_8443_8396, 1460_0047)
    case 41 => Fix(-158_6226_6880_4708_9871_0315, -987_3392_7752_3826_4582_2885, 2044_0074)
    case 42 => Fix(-916_5215_4791_5633_7858_9892, -399_9853_1498_8351_2939_5487, 2861_6112)
    case 43 => Fix(-831_7747_4262_8598_2882_0968, 555_1133_0152_0625_6770_4472, 4006_2565)
    case 44 => Fix(17_7019_2510_5413_5778_0776, 999_8433_0864_7691_2200_6900, 5608_7599)
    case 45 => Fix(850_9035_2453_4118_4248_6226, 525_3219_8881_7729_6960_4762, 7852_2647)
    case 46 => Fix(901_7883_4764_8809_1850_3336, -432_1779_4488_4778_2949_5259, 1_0993_1714)
    case 47 => Fix(123_5731_2274_5224_0040_6172, -992_3354_6915_0928_7182_7971, 1_5390_4408)
    case 48 => Fix(-768_2546_6132_3666_7990_4483, -640_1443_3946_9199_7313_1309, 2_1546_6180)
    case 49 => Fix(-953_7526_5275_9471_8183_6048, 300_5925_4374_3637_0836_8682, 3_0165_2660)
    case 50 => Fix(-262_3748_5370_3928_7859_1461, 964_9660_2849_2113_2740_6889, 4_2231_3732)
    case 51 => Fix(670_2291_7584_3374_7344_9416, 742_1541_9681_3782_5394_6752, 5_9123_9233)
    case 52 => Fix(986_6275_9204_0485_2965_8758, -162_9907_8079_5705_4810_0310, 8_2773_4935)
    case 53 => Fix(395_9251_5018_1834_1815_0358, -918_2827_8621_2118_8911_9961, 11_5882_8917)
    case 54 => Fix(-558_7890_4885_1616_2458_1767, -829_3098_3286_3150_1477_2796, 16_2236_0492)
    case 55 => Fix(-999_7551_7335_8619_8365_9862, 22_1267_5626_1955_7345_6333, 22_7130_4697)
    case 56 => Fix(-521_5510_0208_6911_8801_8761, 853_2201_0772_2584_1139_6954, 31_7982_6584)
    case 57 => Fix(436_1647_5524_7824_9590_8030, 899_8668_2696_9193_7865_0309, 44_5175_7226)
    case 58 => Fix(992_8726_4808_4537_1181_6503, 119_1801_3544_8819_2854_3609, 62_3246_0125)
    case 59 => Fix(636_7380_0713_9137_8807_7141, -771_0802_2297_5845_2293_8726, 87_2544_4183)
    case 60 => Fix(-304_8106_2110_2216_7056_2541, -952_4129_8041_5156_2926_9388, 122_1562_1865)
    case 61 => Fix(-966_1177_7000_8392_9470_1822, -258_1016_3593_8267_4457_0145, 171_0187_0619)
    case 62 => Fix(-739_1806_9664_9222_8672_7619, 673_5071_6232_3586_2528_8764, 239_4261_8875)
    case 63 => Fix(167_3557_0030_2806_9215_2757, 985_8965_8158_2549_6974_3867, 335_1966_6433)
    case _ => Fix(920_0260_3819_6790_6833_5141, 391_8572_3042_9550_0051_6195, 469_2753_3015)
  }

  /** `q` is `p` turned by 1, but for roundings. */
  predicate Turns(p: Fix, q: Fix) {
    && -SCALE <= p.s <= SCALE && -SCALE <= p.c <= SCALE && 0 <= p.e <= SCALE && 5 * q.e >= 7 * p.e + 40
    && -SCALE <= q.s * SCALE - (p.s * COSINE_1 + p.c * SINE_1) <= SCALE
    && -SCALE <= q.c * SCALE - (p.c * COSINE_1 - p.s * SINE_1) <= SCALE
  }

  /** The absolute value of the sine, scaled by 2^32, lies between `t` and `t + 1`. */
  predicate Encloses(p: Fix, t: Word) {
    var size := if p.s < 0 then -p.s else p.s;
    && 0 <= p.e < size
    && t * SCALE <= TWO32 * (size - p.e) && TWO32 * (size + p.e) < (t + 1) * SCALE
  }

  predicate TurnOk(n: nat)
    requires n < 64
  {
    Turns(Fixed(n), Fixed(n + 1)) && Encloses(Fixed(n + 1), Sine(n))
  }

  lemma Turns0(n: nat)
    requires 0 <= n < 6
    ensures TurnOk(n)
  {
  }

  lemma Turns6(n: nat)
    requires 6 <= n < 12
    ensures TurnOk(n)
  {
  }

  lemma Turns12(n: nat)
    requires 12 <= n < 18
    ensures TurnOk(n)
  {
  }

  lemma Turns18(n: nat)
    requires 18 <= n < 24
    ensures TurnOk(n)
  {
  }

  lemma Turns24(n: nat)
    requires 24 <= n < 30
    ensures TurnOk(n)
  {
  }

  lemma Turns30(n: nat)
    requires 30 <= n < 36
    ensures TurnOk(n)
  {
  }

  lemma Turns36(n: nat)
    requires 36 <= n < 42
    ensures TurnOk(n)
  {
  }

  lemma Turns42(n: nat)
    requires 42 <= n < 48
    ensures TurnOk(n)
  {
  }

  lemma Turns48(n: nat)
    requires 48 <= n < 54
    ensures TurnOk(n)
  {
  }

  lemma Turns54(n: nat)
    requires 54 <= n < 60
    ensures TurnOk(n)
  {
  }

  lemma Turns60(n: nat)
    requires 60 <= n < 64
    ensures TurnOk(n)
  {
  }

  lemma AllTurns(n: nat)
    requires n < 64
    ensures TurnOk(n)
  {
    hide TurnOk;
    if n < 6 {
      Turns0(n);
    } else if n < 12 {
      Turns6(n);
    } else if n < 18 {
      Turns12(n);
    } else if n < 24 {
      Turns18(n);
    } else if n < 30 {
      Turns24(n);
    } else if n < 36 {
      Turns30(n);
    } else if n < 42 {
      Turns36(n);
    } else if n < 48 {
      Turns42(n);
    } else if n < 54 {
      Turns48(n);
    } else if n < 60 {
      Turns54(n);
    } else {
      Turns60(n);
    }
  }

  function Abs(x: real): real { if x < 0.0 then -x else x }

  function Times(x: real, y: real): real { x * y }

  lemma SmallTimes(x: real, y: real, d: real, e: real)
    requires Abs(x) <= d && Abs(y) <= e
    ensures Abs(Times(x, y)) <= Times(d, e)
  {
    var a, b := Abs(x), Abs(y);
    assert Abs(x * y) == a * b;
    assert a * b <= d * b;
    assert d * b <= d * e;
  }

  /** The product of two numbers that are near to others. */
  lemma NearTimes(p: real, q: real, x: real, y: real, d: real, e: real)
    requires Abs(x) <= d && Abs(y) <= e
    ensures Abs(Times(p + x, q + y) - Times(p, q)) <= Times(Abs(p), e) + Times(d, Abs(q)) + Times(d, e)
  {
    hide Times, Abs;
    SmallTimes(p, y, Abs(p), e);
    SmallTimes(x, q, d, Abs(q));
    SmallTimes(x, y, d, e);
    Expanded(p, q, x, y);
    SmallSum(Times(p + x, q + y) - Times(p, q), Times(p, y), Times(x, q), Times(x, y));
  }

  lemma SmallSum(w: real, x: real, y: real, z: real)
    requires w == x + y + z
    ensures Abs(w) <= Abs(x) + Abs(y) + Abs(z)
  {
  }

  lemma Expanded(p: real, q: real, x: real, y: real)
    ensures Times(p + x, q + y) == Times(p, q) + Times(p, y) + Times(x, q) + Times(x, y)
  {
  }

  /** The product of scaled numbers, the second of which is one of those for 1. */
  lemma ScaledProduct(x: real, y: real, p: int, q: int, e: int)
    requires Near(x, p, e) && Near(y, q, 1) && -SCALE <= p <= SCALE && 0 <= q <= SCALE && 0 <= e
    ensures Abs(Scaled(Scaled(x * y)) - (p * q) as real) <= (SCALE + e * (q + 1)) as real
  {
    hide Times, Scaled;
    var u, v, a, b := Scaled(x), Scaled(y), p as real, q as real;
    NearTimes(a, b, u - a, v - b, e as real, 1.0);
    assert a + (u - a) == u && b + (v - b) == v;
    Rescaled(x, y);
    Casts(p, q, e);
    assert Abs(b) == b && Abs(a) <= SCALE as real;
    TimesOne(Abs(a));
  }

  lemma TimesOne(x: real)
    ensures Times(x, 1.0) == x
  {
  }

  lemma Casts(p: int, q: int, e: int)
    ensures Times(p as real, q as real) == (p * q) as real
    ensures Times(e as real, q as real) + Times(e as real, 1.0) == (e * (q + 1)) as real
  {
    assert e * (q + 1) == e * q + e;
  }

  lemma Rescaled(x: real, y: real)
    ensures Times(Scaled(x), Scaled(y)) == Scaled(Scaled(x * y))
  {
    assert Scaled(x) * y == Scaled(x * y);
  }

  /** Two products make up a scaled number again. */
  lemma Landing(w: real, x1: real, x2: real, y1: int, y2: int, e: int, q: int, f: int)
    requires Scaled(Scaled(w)) == x1 + x2
    requires Abs(x1 - y1 as real) <= (SCALE + e * (COSINE_1 + 1)) as real
    requires Abs(x2 - y2 as real) <= (SCALE + e * (SINE_1 + 1)) as real
    requires -SCALE <= q * SCALE - (y1 + y2) <= SCALE && 0 <= e <= SCALE && 5 * f >= 7 * e + 40
    ensures Near(w, q, f)
  {
    var a, b := e * (COSINE_1 + 1), e * (SINE_1 + 1);
    assert 5 * (a + b) <= 7 * (e * SCALE);
    assert e * SCALE == e * 100000000000000000000000;
    assert q * SCALE == q * 100000000000000000000000;
  }

  /** The addition theorem on scaled numbers. */
  lemma Turned(s: real, c: real, s1: real, c1: real, p: Fix, q: Fix)
    requires Near(s1, SINE_1, 1) && Near(c1, COSINE_1, 1) && Near(s, p.s, p.e) && Near(c, p.c, p.e) && Turns(p, q)
    ensures Near(SineOfSum(s, c, s1, c1), q.s, q.e) && Near(CosineOfSum(s, c, s1, c1), q.c, q.e)
  {
    hide Near, Abs;
    ScaledProduct(s, c1, p.s, COSINE_1, p.e);
    ScaledProduct(c, s1, p.c, SINE_1, p.e);
    ScaledProduct(c, c1, p.c, COSINE_1, p.e);
    ScaledProduct(s, s1, p.s, SINE_1, p.e);
    var x1, x2, x3, x4 := s * c1, c * s1, c * c1, s * s1;
    var y1, y2, y3, y4 := p.s * COSINE_1, p.c * SINE_1, p.c * COSINE_1, p.s * SINE_1;
    Negated(Scaled(Scaled(x4)), y4);
    Landing(x1 + x2, Scaled(Scaled(x1)), Scaled(Scaled(x2)), y1, y2, p.e, q.s, q.e);
    Landing(x3 - x4, Scaled(Scaled(x3)), -Scaled(Scaled(x4)), y3, -y4, p.e, q.c, q.e);
  }

  lemma Negated(x: real, p: int)
    ensures Abs(-x - (-p) as real) == Abs(x - p as real)
  {
  }

  lemma StartsNear()
    ensures Near(0.0, Fixed(0).s, Fixed(0).e) && Near(1.0, Fixed(0).c, Fixed(0).e)
  {
  }

  lemma NextOf(s: nat -> real, c: nat -> real, n: nat)
    requires SineAndCosine(s, c)
    ensures s(n + 1) == SineOfSum(s(n), c(n), s(1), c(1)) && c(n + 1) == CosineOfSum(s(n), c(n), s(1), c(1))
  {
    hide SineOfSum, CosineOfSum;
  }

  /** Sine and cosine at `n`. */
  ghost predicate BothNear(s: nat -> real, c: nat -> real, n: nat) {
    Near(s(n), Fixed(n).s, Fixed(n).e) && Near(c(n), Fixed(n).c, Fixed(n).e)
  }

  lemma NextNear(s: nat -> real, c: nat -> real, n: nat)
    requires SineAndCosine(s, c) && n < 64 && BothNear(s, c, n)
    ensures BothNear(s, c, n + 1)
  {
    hide Turns, Encloses, Fixed, Near, SineOfSum, CosineOfSum;
    SeriesAtOne(s, c);
    AllTurns(n);
    Turned(s(n), c(n), s(1), c(1), Fixed(n), Fixed(n + 1));
    NextOf(s, c, n);
  }

  lemma {:induction false} AllNear(s: nat -> real, c: nat -> real, n: nat)
    requires SineAndCosine(s, c) && n <= 64
    ensures BothNear(s, c, n)
  {
    if n == 0 {
      StartsNear();
    } else {
      hide BothNear, SineAndCosine;
      AllNear(s, c, n - 1);
      NextNear(s, c, n - 1);
    }
  }

  /** Entry `i` of the table is the integer part of 2^32 times the absolute sine of i + 1, as
      section 3.4 of RFC 1321 demands. */
  lemma SineIsTable(s: nat -> real, c: nat -> real, i: nat)
    requires SineAndCosine(s, c) && i < 64
    ensures Sine(i) as real <= TWO32 as real * Abs(s(i + 1)) < (Sine(i) + 1) as real
  {
    hide Turns, Fixed, Sine;
    AllNear(s, c, i + 1);
    AllTurns(i);
  }
}
