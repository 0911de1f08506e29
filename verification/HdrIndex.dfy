/** The index arithmetic of the histogram: which slot of `counts` a value falls into, and which values share it.
    Shifts and `|` are defined bit by bit, so that no reasoning about products is needed. */
module HdrIndex {
  import RingIndex

  function Pow2(n: nat): (p: nat)
    ensures p >= 1
  {
    if n == 0 then 1 else 2 * Pow2(n - 1)
  }

  /** x << k */
  function Shl(x: nat, k: nat): nat {
    if k == 0 then x else 2 * Shl(x, k - 1)
  }

  /** x >> k */
  function Shr(x: nat, k: nat): nat {
    if k == 0 then x else Shr(x / 2, k - 1)
  }

  /** a | b */
  function Or(a: nat, b: nat): nat
    decreases a + b
  {
    if a == 0 && b == 0 then 0
    else (if a % 2 == 1 || b % 2 == 1 then 1 else 0) + 2 * Or(a / 2, b / 2)
  }

  /** Bits needed to write x. */
  function BitLen(x: nat): nat {
    if x == 0 then 0 else 1 + BitLen(x / 2)
  }

  function Max(a: int, b: int): int {
    if a >= b then a else b
  }

  // ---------------------------------------------------------------- shifts

  lemma {:induction false} ShlNext(x: nat, k: nat)
    ensures Shl(x + 1, k) == Shl(x, k) + Pow2(k)
  {
    if k > 0 {
      ShlNext(x, k - 1);
    }
  }

  lemma {:induction false} ShlMono(x: nat, y: nat, k: nat)
    ensures x <= y ==> Shl(x, k) <= Shl(y, k)
    ensures x < y ==> Shl(x, k) + Pow2(k) <= Shl(y, k)
  {
    if k > 0 {
      ShlMono(x, y, k - 1);
    }
  }

  lemma {:induction false} ShlPow2(a: nat, k: nat)
    ensures Shl(Pow2(a), k) == Pow2(a + k)
  {
    if k > 0 {
      ShlPow2(a, k - 1);
    }
  }

  lemma {:induction false} ShlZero(k: nat)
    ensures Shl(0, k) == 0 && Shl(1, k) == Pow2(k)
  {
    if k > 0 {
      ShlZero(k - 1);
    }
  }

  /** Shifting right and back loses less than one unit of the shift. */
  lemma {:induction false} ShrBounds(v: nat, k: nat)
    ensures Shl(Shr(v, k), k) <= v < Shl(Shr(v, k), k) + Pow2(k)
  {
    if k > 0 {
      ShrBounds(v / 2, k - 1);
    }
  }

  lemma {:induction false} ShrUnique(v: nat, k: nat, q: nat)
    requires Shl(q, k) <= v < Shl(q, k) + Pow2(k)
    ensures Shr(v, k) == q
  {
    ShrBounds(v, k);
    ShlMono(Shr(v, k), q, k);
    ShlMono(q, Shr(v, k), k);
  }

  lemma {:induction false} ShrMono(v: nat, w: nat, k: nat)
    requires v <= w
    ensures Shr(v, k) <= Shr(w, k)
    decreases k
  {
    if k > 0 {
      ShrMono(v / 2, w / 2, k - 1);
    }
  }

  // ---------------------------------------------------------------- powers of two and bit lengths

  lemma {:induction false} Pow2Mono(a: nat, b: nat)
    requires a <= b
    ensures Pow2(a) <= Pow2(b)
    ensures a < b ==> 2 * Pow2(a) <= Pow2(b)
    decreases b
  {
    if a < b {
      Pow2Mono(a, b - 1);
    }
  }

  /** The bit length is exact. */
  lemma {:induction false} BitLenExact(x: nat)
    ensures x < Pow2(BitLen(x))
    ensures x > 0 ==> BitLen(x) > 0 && Pow2(BitLen(x) - 1) <= x
  {
    if x > 0 {
      BitLenExact(x / 2);
    }
  }

  lemma {:induction false} BitLenUnique(x: nat, n: nat)
    requires Pow2(n) <= x < Pow2(n + 1)
    ensures BitLen(x) == n + 1
  {
    BitLenExact(x);
    if BitLen(x) < n + 1 {
      Pow2Mono(BitLen(x), n);
    } else if BitLen(x) > n + 1 {
      Pow2Mono(n + 1, BitLen(x) - 1);
    }
  }

  lemma {:induction false} BitLenMono(x: nat, y: nat)
    requires x <= y
    ensures BitLen(x) <= BitLen(y)
  {
    if x > 0 {
      BitLenMono(x / 2, y / 2);
    }
  }

  lemma {:induction false} BitLenOr(a: nat, b: nat)
    ensures BitLen(Or(a, b)) == Max(BitLen(a), BitLen(b))
    ensures Or(a, b) == 0 <==> a == 0 && b == 0
    decreases a + b
  {
    if a != 0 || b != 0 {
      BitLenOr(a / 2, b / 2);
      assert Or(a, b) / 2 == Or(a / 2, b / 2);
    }
  }

  lemma {:induction false} BitLenShr(x: nat, k: nat)
    requires k > 0 ==> x >= Pow2(k - 1)
    ensures BitLen(x) == k + BitLen(Shr(x, k))
    decreases k
  {
    if k > 0 {
      BitLenShr(x / 2, k - 1);
    }
  }

  lemma {:induction false} SmallPowers()
    ensures Pow2(1) == 0x2 && Pow2(3) == 0x8 && Pow2(7) == 0x80 && Pow2(15) == 0x8000 && Pow2(18) == 0x4_0000
  {
    assert Pow2(3) == 8 && Pow2(6) == 64 && Pow2(9) == 512 && Pow2(12) == 4096 && Pow2(15) == 0x8000;
  }

  /** Shifting by 16, 8, 4 and 2 bits at a time counts the bits of any value. */
  method BitLenOf(v: nat) returns (n: nat)
    ensures n == BitLen(v)
  {
    var x := v;
    n := 0;
    SmallPowers();
    while x >= 0x8000
      invariant n + BitLen(x) == BitLen(v)
      decreases BitLen(x)
    {
      x, n := ShiftBy(x, n, 16, 0x8000);
    }
    AtMostBits(x, 15);
    x, n := ShiftBy(x, n, 8, 0x80);
    x, n := ShiftBy(x, n, 4, 0x8);
    x, n := ShiftBy(x, n, 2, 0x2);
    if x >= 0x1 {
      n := n + 1;
    }
  }

  /** One conditional shift: if x has at least k bits, k of them are dropped and counted. */
  method ShiftBy(x: nat, n: nat, k: nat, least: nat) returns (y: nat, m: nat)
    requires k > 0 && least == Pow2(k - 1)
    ensures m + BitLen(y) == n + BitLen(x)
    ensures BitLen(x) < 2 * k ==> BitLen(y) < k
    ensures x >= least ==> BitLen(y) < BitLen(x)
  {
    y, m := x, n;
    if x >= least {
      BitLenShr(x, k);
      y, m := Shr(x, k), n + k;
    } else {
      AtMostBits(x, k - 1);
    }
  }

  lemma {:induction false} AtMostBits(x: nat, n: nat)
    requires x < Pow2(n)
    ensures BitLen(x) <= n
  {
    BitLenExact(x);
    if BitLen(x) > n {
      Pow2Mono(n, BitLen(x) - 1);
    }
  }

  // ---------------------------------------------------------------- configuration

  /** What New derives from its arguments and never changes afterwards. `unit` and `half` are the code's
      unitMagnitude and subBucketHalfCountMagnitude. */
  datatype Config = Config(lowest: int, highest: int, sigfigs: int, unit: nat, half: nat, bucketCount: nat)
  {
    function SubBucketCount(): nat {
      Pow2(half + 1)
    }

    function SubBucketHalfCount(): nat {
      SubBucketCount() / 2
    }

    function SubBucketMask(): nat {
      Shl(SubBucketCount() - 1, unit)
    }

    /** As many halves of a bucket as there are buckets, plus one; CountsLenIsProduct has the code's formula. */
    function CountsLen(): nat {
      Shl(bucketCount + 1, half)
    }

    function BucketIndex(v: nat): int {
      BitLen(Or(v, SubBucketMask())) - unit - (half + 1)
    }

    function SubBucketIndex(v: nat, bucket: nat): nat {
      Shr(v, bucket + unit)
    }

    function CountsIndex(bucket: nat, sub: nat): int {
      Shl(bucket + 1, half) + (sub - SubBucketHalfCount())
    }

    function ValueFromIndex(bucket: nat, sub: nat): nat {
      Shl(sub, bucket + unit)
    }

    /** The pairs an iterator goes through: the lower half of the sub-buckets belongs to bucket 0 alone. */
    predicate Canonical(bucket: nat, sub: nat) {
      sub < SubBucketCount() && (bucket > 0 ==> sub >= SubBucketHalfCount())
    }

    lemma {:induction false} MaskBits()
      ensures BitLen(SubBucketMask()) == unit + half + 1
    {
      ShlNext(SubBucketCount() - 1, unit);
      ShlPow2(half + 1, unit);
      ShlMono(Pow2(half), SubBucketCount() - 1, unit);
      ShlPow2(half, unit);
      BitLenUnique(SubBucketMask(), unit + half);
    }

    /** Or-ing in the mask makes every small value fall into bucket 0. */
    lemma {:induction false} BucketIndexIs(v: nat)
      ensures BucketIndex(v) == Max(0, BitLen(v) - (unit + half + 1))
    {
      MaskBits();
      BitLenOr(v, SubBucketMask());
    }

    /** How the top bits of a value bound it. */
    lemma {:induction false} BucketBounds(v: nat)
      ensures BucketIndex(v) >= 0
      ensures var b := BucketIndex(v); v < Shl(SubBucketCount(), b + unit)
      ensures var b := BucketIndex(v); b > 0 ==> Shl(SubBucketHalfCount(), b + unit) <= v
    {
      BucketIndexIs(v);
      BitLenExact(v);
      var b := BucketIndex(v);
      ShlPow2(half + 1, b + unit);
      ShlPow2(half, b + unit);
      Pow2Mono(BitLen(v), half + 1 + (b + unit));
    }

    /** The slot of a value is canonical - the code's range check on the sub-bucket never fires - and it is the
        one whose range holds the value. */
    lemma {:induction false} SlotOf(v: nat)
      ensures BucketIndex(v) >= 0
      ensures var b := BucketIndex(v); var s := SubBucketIndex(v, b);
              && Canonical(b, s) && s < SubBucketCount()
              && ValueFromIndex(b, s) <= v < ValueFromIndex(b, s) + Pow2(b + unit)
    {
      BucketBounds(v);
      var k := BucketIndex(v) + unit;
      ShrBounds(v, k);
      ShlMono(SubBucketCount(), Shr(v, k), k);
      ShlMono(Shr(v, k), SubBucketHalfCount(), k);
    }

    function Index(v: nat): int {
      SlotOf(v);
      var b := BucketIndex(v);
      CountsIndex(b, SubBucketIndex(v, b))
    }

    /** The index of any value. Of a negative one the bit length is 0; its bucket is then so far below 0 that the shift
        by that, taken as unsigned, leaves -1. */
    function IndexOf(v: int): int {
      if v >= 0 then Index(v)
      else
        var bucket: int := -(unit + half + 1);
        var base: int := Shl(-(bucket + 1), half);
        -base + (-1 - SubBucketHalfCount())
    }

    /** The index fits `counts` exactly for values from 0 to below the limit. */
    lemma {:induction false} FitsInRange(v: int)
      requires bucketCount >= 1
      ensures 0 <= IndexOf(v) < CountsLen() <==> 0 <= v < Limit()
    {
      if v >= 0 {
        FitsBelowLimit(v);
      }
    }

    function SizeOfRange(v: nat): nat {
      SlotOf(v);
      var b := BucketIndex(v);
      assert SubBucketIndex(v, b) < SubBucketCount();
      Pow2(unit + b)
    }

    function Lowest(v: nat): nat {
      SlotOf(v);
      var b := BucketIndex(v);
      ValueFromIndex(b, SubBucketIndex(v, b))
    }

    function NextNonEquivalent(v: nat): nat {
      Lowest(v) + SizeOfRange(v)
    }

    function Highest(v: nat): int {
      NextNonEquivalent(v) - 1
    }

    // -------------------------------------------------------------- slots and indices, one to one

    lemma {:induction false} SlotBounds(v: nat, b: nat, s: nat)
      requires Canonical(b, s) && ValueFromIndex(b, s) <= v < ValueFromIndex(b, s) + Pow2(b + unit)
      ensures v < Pow2(half + 1 + (b + unit)) && (b > 0 ==> Pow2(half + (b + unit)) <= v)
    {
      var k := b + unit;
      ShlPow2(half + 1, k);
      ShlPow2(half, k);
      ShlMono(s, Pow2(half + 1), k);
      ShlMono(Pow2(half), s, k);
    }

    lemma {:induction false} BucketUnique(v: nat, b: nat, s: nat)
      requires Canonical(b, s) && ValueFromIndex(b, s) <= v < ValueFromIndex(b, s) + Pow2(b + unit)
      ensures BucketIndex(v) == b
    {
      BucketIndexIs(v);
      SlotBounds(v, b, s);
      if b > 0 {
        BitLenUnique(v, half + (b + unit));
      } else {
        AtMostBits(v, half + 1 + unit);
      }
    }

    /** A canonical slot contains exactly the values that are mapped to it. */
    lemma {:induction false} SlotUnique(v: nat, b: nat, s: nat)
      requires Canonical(b, s) && ValueFromIndex(b, s) <= v < ValueFromIndex(b, s) + Pow2(b + unit)
      ensures BucketIndex(v) == b && SubBucketIndex(v, b) == s
    {
      BucketUnique(v, b, s);
      ShrUnique(v, b + unit, s);
    }

    /** Indices of a bucket start where those of the bucket before end. */
    lemma {:induction false} BucketSpan(b: nat, s: nat)
      requires Canonical(b, s)
      ensures CountsIndex(b, s) == Shl(b, half) + s
      ensures CountsIndex(b, s) < Shl(b + 2, half) && (b > 0 ==> Shl(b + 1, half) <= CountsIndex(b, s))
    {
      ShlNext(b, half);
      ShlNext(b + 1, half);
    }

    /** CountsIndex numbers the canonical pairs in order and without repetition. */
    lemma {:induction false} CountsIndexOrder(b: nat, s: nat, b': nat, s': nat)
      requires Canonical(b, s) && Canonical(b', s')
      ensures CountsIndex(b, s) < CountsIndex(b', s') <==> b < b' || (b == b' && s < s')
      ensures CountsIndex(b, s) == CountsIndex(b', s') <==> b == b' && s == s'
    {
      BucketSpan(b, s);
      BucketSpan(b', s');
      ShlMono(b + 2, b' + 1, half);
      ShlMono(b' + 2, b + 1, half);
    }

    /** The bucket and sub-bucket that index i stands for. */
    function PairOf(i: nat): (nat, nat) {
      ShrBounds(i, half);
      var q := Shr(i, half);
      if q < 2 then (0, i)
      else
        ShlMono(q - 1, q, half);
        (q - 1, i - Shl(q - 1, half))
    }

    lemma {:induction false} FirstSlot()
      ensures PairOf(0) == (0, 0) && ValueFromIndex(0, 0) == 0
    {
      ShlZero(half);
      ShrUnique(0, half, 0);
      ShlZero(unit);
    }

    /** The numbering leaves no gaps. */
    lemma {:induction false} PairOfIsCanonical(i: nat)
      ensures var (b, s) := PairOf(i); Canonical(b, s) && CountsIndex(b, s) == i
    {
      var q := Shr(i, half);
      ShrBounds(i, half);
      ShlZero(half);
      ShlNext(0, half);
      ShlNext(1, half);
      ShlMono(q, 1, half);
      if q >= 2 {
        ShlNext(q - 1, half);
      }
    }

    lemma {:induction false} PairOfInverse(b: nat, s: nat)
      requires Canonical(b, s)
      ensures CountsIndex(b, s) >= 0 && PairOf(CountsIndex(b, s)) == (b, s)
    {
      BucketSpan(b, s);
      PairOfIsCanonical(CountsIndex(b, s));
      var (c, t) := PairOf(CountsIndex(b, s));
      CountsIndexOrder(b, s, c, t);
    }

    lemma {:induction false} CountsLenIsProduct()
      ensures CountsLen() == (bucketCount + 1) * (SubBucketCount() / 2)
    {
      ShlIsProduct(bucketCount + 1, half);
    }

    lemma {:induction false} SlotFitsIffBucketExists(b: nat, s: nat)
      requires bucketCount >= 1 && Canonical(b, s)
      ensures 0 <= CountsIndex(b, s)
      ensures CountsIndex(b, s) < CountsLen() <==> b < bucketCount
    {
      BucketSpan(b, s);
      ShlMono(b + 2, bucketCount + 1, half);
      ShlMono(bucketCount + 1, b + 1, half);
    }

    /** The pair after a canonical one: the next sub-bucket, or the middle of the next bucket. An iterator starts
        just before (0, 0). */
    function NextPair(b: int, s: int): (int, int) {
      if s + 1 >= SubBucketCount() then (b + 1, SubBucketHalfCount()) else (b, s + 1)
    }

    /** Stepping through the pairs steps through the indices, one by one from 0, and runs out of buckets exactly
        when it has run out of counts. */
    lemma {:induction false} NextPairNextIndex(i: nat, b: int, s: int)
      requires bucketCount >= 1
      requires if i == 0 then b == 0 && s == -1 else (b, s) == PairOf(i - 1)
      ensures var (c, t) := NextPair(b, s);
              && c >= 0 && t >= 0 && (c, t) == PairOf(i) && CountsIndex(c, t) == i
              && (i < CountsLen() <==> c < bucketCount)
    {
      var (c, t) := NextPair(b, s);
      if i > 0 {
        PairOfIsCanonical(i - 1);
        BucketSpan(b, s);
        ShlNext(b, half);
      } else {
        ShlZero(half);
      }
      BucketSpan(c, t);
      PairOfInverse(c, t);
      SlotFitsIffBucketExists(c, t);
    }

    /** The least limit a histogram with this unit and precision can have, doubled j times. */
    function LimitAt(j: nat): nat {
      Shl(SubBucketCount(), unit + j)
    }

    /** The smallest value that is too large. */
    function Limit(): nat
      requires bucketCount >= 1
    {
      LimitAt(bucketCount - 1)
    }

    lemma {:induction false} LimitDoubles(j: nat)
      ensures LimitAt(j + 1) == 2 * LimitAt(j) > 0
    {
      ShlPow2(half + 1, unit + j);
    }

    lemma {:induction false} LimitsIncrease(i: nat, j: nat)
      requires i <= j
      ensures LimitAt(i) <= LimitAt(j) && (i < j ==> LimitAt(i) < LimitAt(j))
      decreases j
    {
      if i < j {
        LimitDoubles(j - 1);
        LimitsIncrease(i, j - 1);
      }
    }

    /** The index of a value fits `counts` exactly when the value is below the limit. */
    lemma {:induction false} FitsBelowLimit(v: nat)
      requires bucketCount >= 1
      ensures 0 <= Index(v)
      ensures Index(v) < CountsLen() <==> v < Limit()
    {
      hide Shl, Shr, Or, BucketIndex, CountsIndex;
      SlotOf(v);
      var b := BucketIndex(v);
      SlotFitsIffBucketExists(b, SubBucketIndex(v, b));
      BucketIndexIs(v);
      BitLenExact(v);
      var k := half + 1 + (unit + bucketCount - 1);
      ShlPow2(half + 1, unit + bucketCount - 1);
      if v < Limit() && BitLen(v) > k {
        Pow2Mono(k, BitLen(v) - 1);
      }
      if v >= Limit() && BitLen(v) <= k {
        Pow2Mono(BitLen(v), k);
      }
    }

    /** Larger values never get smaller indices. */
    lemma {:induction false} IndexMono(v: nat, w: nat)
      requires v <= w
      ensures Index(v) <= Index(w)
    {
      hide Shl, Shr, BitLen, Pow2, BucketIndex, CountsIndex, Canonical;
      SlotOf(v);
      SlotOf(w);
      var (b, c) := (BucketIndex(v), BucketIndex(w));
      BucketIndexIs(v);
      BucketIndexIs(w);
      BitLenMono(v, w);
      ShrMono(v, w, b + unit);
      CountsIndexOrder(b, SubBucketIndex(v, b), c, SubBucketIndex(w, c));
    }

    /** Two values share a slot exactly when they are equivalent, and the equivalent values of v are the whole
        interval from Lowest(v) to Highest(v). */
    lemma {:induction false} SameIndexIffEquivalent(v: nat, w: nat)
      ensures Lowest(v) <= v <= Highest(v)
      ensures Index(v) == Index(w) <==> Lowest(v) == Lowest(w)
      ensures Index(v) == Index(w) <==> Lowest(v) <= w <= Highest(v)
      ensures Index(v) == Index(w) ==> Highest(v) == Highest(w)
    {
      SlotOf(v);
      SlotOf(w);
      var (b, c) := (BucketIndex(v), BucketIndex(w));
      var (s, t) := (SubBucketIndex(v, b), SubBucketIndex(w, c));
      CountsIndexOrder(b, s, c, t);
      if Lowest(v) <= w <= Highest(v) {
        SlotUnique(w, b, s);
      }
      if Lowest(v) == Lowest(w) {
        SlotUnique(Lowest(v), b, s);
        SlotUnique(Lowest(w), c, t);
      }
    }

    /** The value an iterator reports for index i is the lowest value of slot i. */
    lemma {:induction false} ValueAtIndex(i: nat)
      ensures var (b, s) := PairOf(i);
              var v := ValueFromIndex(b, s);
              Index(v) == i && Lowest(v) == v && BucketIndex(v) == b
    {
      PairOfIsCanonical(i);
      var (b, s) := PairOf(i);
      SlotUnique(ValueFromIndex(b, s), b, s);
    }
  }

  lemma {:induction false} ShlIsProduct(x: nat, k: nat)
    ensures Shl(x, k) == x * Pow2(k)
  {
    if k > 0 {
      ShlIsProduct(x, k - 1);
      Twice(x, Pow2(k - 1));
    }
  }

  lemma {:induction false} Twice(x: int, p: int)
    ensures 2 * (x * p) == x * (2 * p)
  {
  }

  // ---------------------------------------------------------------- from arguments to configuration

  function Pow10(n: nat): (p: nat)
    ensures p >= 1
  {
    if n == 0 then 1 else 10 * Pow10(n - 1)
  }

  /** The least m with 2^m >= x. */
  function CeilLog2(x: nat): nat
    requires x >= 1
  {
    BitLen(x - 1)
  }

  lemma {:induction false} CeilLog2IsLeast(x: nat)
    requires x >= 1
    ensures Pow2(CeilLog2(x)) >= x
    ensures CeilLog2(x) > 0 ==> Pow2(CeilLog2(x) - 1) < x
  {
    BitLenExact(x - 1);
  }

  /** One more than the number of doublings of `limit` it takes to reach `highest`. */
  function BucketsFor(limit: nat, highest: int): (b: nat)
    requires limit >= 1
    ensures b >= 1
    decreases highest - limit
  {
    if limit < highest then 1 + BucketsFor(2 * limit, highest) else 1
  }

  /** The arguments for which 64-bit arithmetic is exact throughout. */
  predicate InRange(lowest: int, highest: int) {
    1 <= lowest <= 0x1000_0000_0000 && highest <= 0x4000_0000_0000_0000
  }

  /** What New computes; its panic is for precisions other than one to five digits. */
  function ConfigFor(lowest: int, highest: int, sigfigs: int): Config
    requires lowest >= 1 && 1 <= sigfigs <= 5
  {
    var half := Max(CeilLog2(2 * Pow10(sigfigs)), 1) - 1;
    var unit := BitLen(lowest) - 1;
    ShlMono(1, Pow2(half + 1), unit);
    ShlZero(unit);
    Config(lowest, highest, sigfigs, unit, half, BucketsFor(Shl(Pow2(half + 1), unit), highest))
  }

  predicate Configured(c: Config) {
    InRange(c.lowest, c.highest) && 1 <= c.sigfigs <= 5 && c == ConfigFor(c.lowest, c.highest, c.sigfigs)
  }

  lemma {:induction false} BucketsForIsLeast(c: Config, j: nat, highest: int)
    requires c.LimitAt(j) >= 1
    ensures var b := BucketsFor(c.LimitAt(j), highest);
            c.LimitAt(j + b - 1) >= highest && (b > 1 ==> c.LimitAt(j + b - 2) < highest)
    decreases highest - c.LimitAt(j)
  {
    if c.LimitAt(j) < highest {
      c.LimitDoubles(j);
      BucketsForIsLeast(c, j + 1, highest);
    }
  }

  /** The sub-buckets resolve the requested digits, in the least power of two that does, the unit is at most the lowest
      value, and the limit is the first doubling of the least possible limit that reaches the highest value. */
  lemma {:induction false} ConfiguredMeans(c: Config)
    requires Configured(c)
    ensures Pow10(c.sigfigs) <= c.SubBucketHalfCount() < 2 * Pow10(c.sigfigs) && c.bucketCount >= 1
    ensures Pow2(c.unit) <= c.lowest < 2 * Pow2(c.unit)
    ensures c.Limit() >= c.highest
    ensures c.bucketCount > 1 ==> c.LimitAt(c.bucketCount - 2) < c.highest
  {
    CeilLog2IsLeast(2 * Pow10(c.sigfigs));
    BitLenExact(c.lowest);
    c.LimitDoubles(0);
    BucketsForIsLeast(c, 0, c.highest);
  }

  // ---------------------------------------------------------------- what the user is promised

  /** Every value below the highest one can be recorded. The highest value itself can be recorded unless it is
      the least possible limit doubled some number of times: then it is one too large. */
  lemma {:induction false} TrackableValues(c: Config, v: nat)
    requires Configured(c)
    ensures v < c.highest ==> c.Index(v) < c.CountsLen()
    ensures v == c.highest ==> (c.Index(v) < c.CountsLen() <==> !exists j: nat :: v == c.LimitAt(j))
  {
    ConfiguredMeans(c);
    c.FitsBelowLimit(v);
    if v == c.highest && v < c.Limit() {
      forall j: nat
        ensures v != c.LimitAt(j)
      {
        if j >= c.bucketCount - 1 {
          c.LimitsIncrease(c.bucketCount - 1, j);
        } else {
          c.LimitsIncrease(j, c.bucketCount - 2);
        }
      }
    }
  }

  /** What is reported for a value is never below it, and above it by less than the lowest trackable value or by
      less than one part in 10^sigfigs. */
  lemma {:induction false} Resolution(c: Config, v: nat)
    requires Configured(c)
    ensures v <= c.Highest(v)
    ensures c.Highest(v) - v < c.lowest || (c.Highest(v) - v) * Pow10(c.sigfigs) < v
  {
    hide Or, Shl, Shr, ConfigFor, BitLen;
    ConfiguredMeans(c);
    c.SameIndexIffEquivalent(v, v);
    c.SlotOf(v);
    var b := c.BucketIndex(v);
    if b > 0 {
      c.BucketBounds(v);
      ShlIsProduct(c.SubBucketHalfCount(), b + c.unit);
      Scaled(c.Highest(v) - v, Pow10(c.sigfigs), c.SubBucketHalfCount(), Pow2(b + c.unit), v);
    }
  }

  lemma {:induction false} Scaled(d: int, p: nat, h: nat, size: nat, v: int)
    requires 0 <= d < size && 1 <= p <= h && h * size <= v
    ensures d * p < v
  {
    RingIndex.ProductMono(d + 1, size, p);
    RingIndex.ProductMono(p, h, size);
    assert (d + 1) * p == d * p + p;
    assert size * p == p * size;
  }

  lemma {:induction false} SubBucketsFit(sigfigs: nat)
    requires 1 <= sigfigs <= 5
    ensures Pow2(Max(CeilLog2(2 * Pow10(sigfigs)), 1)) <= 0x4_0000
  {
    SmallPowers();
    assert Pow10(2) == 100 && Pow10(4) == 100 * Pow10(2) && Pow10(sigfigs) <= Pow10(5) == 100_000;
    var m := CeilLog2(2 * Pow10(sigfigs));
    CeilLog2IsLeast(2 * Pow10(sigfigs));
    if m > 18 {
      Pow2Mono(18, m - 1);
    }
    Pow2Mono(Max(m, 1), 18);
  }

  lemma {:induction false} Pow2Sum(a: nat, b: nat)
    ensures Pow2(a + b) == Pow2(a) * Pow2(b)
  {
    ShlPow2(a, b);
    ShlIsProduct(Pow2(a), b);
  }

  lemma {:induction false} LargePowers()
    ensures Pow2(62) == 0x4000_0000_0000_0000 && Pow2(63) == 0x8000_0000_0000_0000
  {
    SmallPowers();
    Pow2Sum(18, 18);
    Pow2Sum(36, 18);
    Pow2Sum(54, 7);
    Pow2Sum(61, 1);
    Pow2Sum(62, 1);
  }

  lemma {:induction false} LimitFits(c: Config)
    requires Configured(c)
    ensures c.bucketCount >= 1 && c.Limit() < 0x8000_0000_0000_0000 && Pow2(c.half + 1) <= 0x4_0000
  {
    hide Pow2, Shl, BitLen, BucketsFor;
    ConfiguredMeans(c);
    SubBucketsFit(c.sigfigs);
    if c.bucketCount > 1 {
      c.LimitDoubles(c.bucketCount - 2);
    } else {
      ShlMono(c.SubBucketCount(), 0x4_0000, c.unit);
      ShlIsProduct(0x4_0000, c.unit);
    }
  }

  /** The shape of a configuration: few enough sub-buckets and buckets for 32-bit indices. */
  lemma {:induction false} FewSlots(c: Config)
    requires c.bucketCount >= 1 && c.Limit() < 0x8000_0000_0000_0000 && Pow2(c.half + 1) <= 0x4_0000
    ensures c.half + c.unit + c.bucketCount < 63 && c.CountsLen() <= 0x80_0000
  {
    hide Pow2, Shl;
    var k := c.half + 1 + (c.unit + c.bucketCount - 1);
    ShlPow2(c.half + 1, c.unit + c.bucketCount - 1);
    LargePowers();
    if k >= 63 {
      Pow2Mono(63, k);
    }
    FewAtATime(c.bucketCount + 1, c.half);
  }

  lemma {:induction false} FewAtATime(b: nat, half: nat)
    requires b <= 64 && Pow2(half + 1) <= 0x4_0000
    ensures Shl(b, half) <= 0x80_0000
  {
    ShlIsProduct(b, half);
    RingIndex.ProductMono(b, 64, Pow2(half));
  }

  /** No value the index arithmetic computes leaves its type: for any 64-bit v the bucket, the sub-bucket and the
      index fit 32 bits, and for a trackable one the end of its slot fits 64. */
  lemma {:induction false} StaysInRange(c: Config, v: nat)
    requires Configured(c) && v < 0x8000_0000_0000_0000
    ensures c.Limit() < 0x8000_0000_0000_0000 && c.CountsLen() < 0x8000_0000
    ensures 0 <= c.BucketIndex(v) < 64 && c.SubBucketIndex(v, c.BucketIndex(v)) < 0x8000_0000
    ensures 0 <= c.Index(v) < 0x8000_0000
    ensures v < c.Limit() ==> c.Highest(v) + 1 <= c.Limit()
  {
    hide Pow2, Shl, Shr, ConfigFor, Config.BucketIndex, Config.Highest, Config.Lowest;
    LimitFits(c);
    FewSlots(c);
    c.BucketIndexIs(v);
    LargePowers();
    BitLenExact(v);
    if BitLen(v) >= 64 {
      Pow2Mono(63, BitLen(v) - 1);
    }
    c.SlotOf(v);
    c.FitsBelowLimit(v);
    FewAtATime(c.BucketIndex(v) + 1, c.half);
    if v < c.Limit() {
      c.SameIndexIffEquivalent(v, v);
      c.SameIndexIffEquivalent(v, c.Highest(v));
      c.FitsBelowLimit(c.Highest(v));
    }
  }

  /** Above 2^62 the doubling in New never reaches the highest value: no limit that fits 64 bits does. */
  lemma {:induction false} NoLimitReaches(c: Config, j: nat, highest: int)
    requires highest > 0x4000_0000_0000_0000 && c.LimitAt(j) < 0x8000_0000_0000_0000
    ensures c.LimitAt(j) < highest
  {
    ShlPow2(c.half + 1, c.unit + j);
    LargePowers();
    var k := c.half + 1 + (c.unit + j);
    if k >= 63 {
      Pow2Mono(63, k);
    } else {
      Pow2Mono(k, 62);
    }
  }

  lemma {:induction false} FirstTwoSlots(c: Config)
    requires Configured(c) && c.lowest == 1
    ensures c.Index(0) == 0 && c.Index(1) == 1
  {
    hide Shr, Or, ConfigFor;
    UnitIsZero(c);
    ShlZero(c.half);
    Pow2Mono(1, c.half + 1);
    c.SlotUnique(0, 0, 0);
    c.SlotUnique(1, 0, 1);
    c.BucketSpan(0, 0);
    c.BucketSpan(0, 1);
  }

  lemma {:induction false} UnitIsZero(c: Config)
    requires Configured(c) && c.lowest == 1
    ensures c.unit == 0
  {
  }

  /** A highest value that is a limit itself, and is refused. */
  lemma {:induction false} HighestIsRefused()
    ensures var c := ConfigFor(1, 2048, 3);
            Configured(c) && c.highest == 2048 == c.LimitAt(0) && c.Index(2048) >= c.CountsLen()
  {
    hide Shl, Or, Shr, Config.Index, Config.CountsLen;
    assert Pow10(3) == 1000 && BitLen(1999) == 11;
    ShlPow2(11, 0);
    var c := ConfigFor(1, 2048, 3);
    assert c.half == 10 && c.unit == 0;
    c.FitsBelowLimit(2048);
  }
}
