/** Least-significant-digit radix sort of non-negative integers: one stable distribution
    into ten buckets per decimal digit, gathered back in bucket order. */
module RadixSort {
  import Trees

  const Radix: int := 10

  /** Java's `Integer.MIN_VALUE`. */
  const IntMin: int := -0x8000_0000

  function Pow10(n: int): (p: int)
    ensures p >= 1
    decreases n
  {
    if n <= 0 then 1 else 10 * Pow10(n - 1)
  }

  /** `getDigit(number, n)`: the `n`-th decimal digit counting the units as 1, that is
      `number / 10^(n-1)` reduced modulo ten. */
  function GetDigit(number: int, n: int): (d: int)
    ensures 0 <= d < Radix
  {
    (number / Pow10(n - 1)) % Radix
  }

  /** The number formed by the low `i` digits. */
  function Low(x: int, i: int): (l: int)
    ensures 0 <= l < Pow10(i)
  {
    x % Pow10(i)
  }

  /** `floor(log10(x))` for a positive `x`. */
  function Log10(x: int): (l: nat)
    requires x >= 1
    ensures Pow10(l) <= x < Pow10(l + 1)
  {
    if x < 10 then 0 else 1 + Log10(x / 10)
  }

  /** `(int) Math.log10(x) + 1`: the number of decimal digits of a positive `x`. For 0 the
      logarithm is minus infinity, which the cast turns into `Integer.MIN_VALUE`. */
  function DigitCount(x: int): (c: int)
    requires x >= 0
    ensures x >= 1 ==> c >= 1 && x < Pow10(c)
    ensures x == 0 ==> c < 0
  {
    if x == 0 then IntMin + 1 else Log10(x) + 1
  }

  /** `getMaxNumberOfDigits`: the largest digit count, starting from `Integer.MIN_VALUE`. */
  method MaxNumberOfDigits(a: seq<int>) returns (max: int)
    requires forall k | 0 <= k < |a| :: a[k] >= 0
    ensures forall k | 0 <= k < |a| :: DigitCount(a[k]) <= max
    ensures max == IntMin || exists k | 0 <= k < |a| :: max == DigitCount(a[k])
  {
    max := IntMin;
    var i := 0;
    while i < |a|
      invariant 0 <= i <= |a|
      invariant forall k | 0 <= k < i :: DigitCount(a[k]) <= max
      invariant max == IntMin || exists k | 0 <= k < i :: max == DigitCount(a[k])
    {
      var temp := DigitCount(a[i]);
      if temp > max {
        max := temp;
      }
      i := i + 1;
    }
  }

  /** Bucket `b` after distributing `s` by digit `n`: its elements with that digit, in order. */
  function Bucket(s: seq<int>, n: int, b: int): (r: seq<int>)
    ensures |r| <= |s|
  {
    if s == [] then []
    else Bucket(s[..|s| - 1], n, b) + (if GetDigit(s[|s| - 1], n) == b then [s[|s| - 1]] else [])
  }

  /** Buckets `b` to 9 gathered back in order. */
  function Gather(s: seq<int>, n: int, b: int): (r: seq<int>)
    requires 0 <= b <= Radix
    decreases Radix - b
  {
    if b == Radix then [] else Bucket(s, n, b) + Gather(s, n, b + 1)
  }

  /** The buckets as the source holds them, gathered from bucket `j` on. */
  function Concat(buckets: seq<seq<int>>, j: int): seq<int>
    requires 0 <= j <= |buckets|
    decreases |buckets| - j
  {
    if j == |buckets| then [] else buckets[j] + Concat(buckets, j + 1)
  }

  lemma {:induction false} ConcatIsGather(buckets: seq<seq<int>>, s: seq<int>, n: int, j: int)
    requires |buckets| == Radix && 0 <= j <= Radix
    requires forall b | 0 <= b < Radix :: buckets[b] == Bucket(s, n, b)
    ensures Concat(buckets, j) == Gather(s, n, j)
    decreases Radix - j
  {
    if j < Radix {
      ConcatIsGather(buckets, s, n, j + 1);
    }
  }

  /** One turn of the digit loop of `sort`: distribute by digit `n`, then poll the buckets
      back into the array from position 0. The pass is the stable distribution `Gather(a, n, 0)`. */
  method Pass(a: seq<int>, n: int) returns (s: seq<int>)
    ensures s == Gather(a, n, 0)
  {
    var buckets: seq<seq<int>> := seq(Radix, _ => []);
    var j := 0;
    while j < |a|
      invariant 0 <= j <= |a| && |buckets| == Radix
      invariant forall b | 0 <= b < Radix :: buckets[b] == Bucket(a[..j], n, b)
    {
      var digit := GetDigit(a[j], n);
      assert a[..j + 1][..j] == a[..j];
      buckets := buckets[digit := buckets[digit] + [a[j]]];
      j := j + 1;
    }
    assert a[..|a|] == a;
    ConcatIsGather(buckets, a, n, 0);
    GatherPermutes(a, n);
    s := Poll(a, buckets);
  }

  /** The gathering loops: each bucket is polled empty in turn, writing from position 0. */
  method Poll(a: seq<int>, buckets: seq<seq<int>>) returns (s: seq<int>)
    requires |buckets| == Radix && |Concat(buckets, 0)| == |a|
    ensures s == Concat(buckets, 0)
  {
    s := a;
    var counter := 0;
    var j := 0;
    while j < Radix
      invariant 0 <= j <= Radix && |s| == |a|
      invariant 0 <= counter && counter + |Concat(buckets, j)| == |a|
      invariant s[..counter] + Concat(buckets, j) == Concat(buckets, 0)
    {
      var q := buckets[j];
      while q != []
        invariant 0 <= counter && counter + |q| + |Concat(buckets, j + 1)| == |a| && |s| == |a|
        invariant s[..counter] + q + Concat(buckets, j + 1) == Concat(buckets, 0)
      {
        assert s[counter := q[0]][..counter + 1] == s[..counter] + [q[0]];
        s := s[counter := q[0]];
        q := q[1..];
        counter := counter + 1;
      }
      j := j + 1;
    }
    assert s == s[..counter];
  }

  /** Every element of bucket `b` has digit `b`. */
  lemma {:induction false} BucketDigits(s: seq<int>, n: int, b: int)
    ensures forall k | 0 <= k < |Bucket(s, n, b)| :: GetDigit(Bucket(s, n, b)[k], n) == b
    decreases |s|
  {
    if s != [] {
      BucketDigits(s[..|s| - 1], n, b);
    }
  }

  /** Every element gathered from bucket `b` on has a digit of at least `b`. */
  lemma {:induction false} GatherDigits(s: seq<int>, n: int, b: int)
    requires 0 <= b <= Radix
    ensures forall k | 0 <= k < |Gather(s, n, b)| :: GetDigit(Gather(s, n, b)[k], n) >= b
    decreases Radix - b
  {
    if b < Radix {
      BucketDigits(s, n, b);
      GatherDigits(s, n, b + 1);
      var x, y := Bucket(s, n, b), Gather(s, n, b + 1);
      forall k | 0 <= k < |x + y| ensures GetDigit((x + y)[k], n) >= b {
        if k >= |x| {
          assert (x + y)[k] == y[k - |x|];
        }
      }
    }
  }

  /** The elements of `s` whose digit `n` is at least `b`, in order. */
  function AtLeast(s: seq<int>, n: int, b: int): (r: seq<int>)
    ensures |r| <= |s|
  {
    if s == [] then []
    else AtLeast(s[..|s| - 1], n, b) + (if GetDigit(s[|s| - 1], n) >= b then [s[|s| - 1]] else [])
  }

  /** Those with digit at least `b` are those with digit `b` and those with digit at least
      `b + 1`. */
  lemma {:induction false} AtLeastSplits(s: seq<int>, n: int, b: int)
    ensures multiset(AtLeast(s, n, b)) == multiset(Bucket(s, n, b)) + multiset(AtLeast(s, n, b + 1))
    decreases |s|
  {
    if s != [] {
      AtLeastSplits(s[..|s| - 1], n, b);
    }
  }

  /** Every digit is at least 0 and below the radix. */
  lemma {:induction false} AtLeastBounds(s: seq<int>, n: int)
    ensures AtLeast(s, n, 0) == s && AtLeast(s, n, Radix) == []
    decreases |s|
  {
    if s != [] {
      AtLeastBounds(s[..|s| - 1], n);
      LastSplit(s);
    }
  }

  /** The buckets from `b` on hold exactly the elements with digit at least `b`. */
  lemma {:induction false} GatherIsAtLeast(s: seq<int>, n: int, b: int)
    requires 0 <= b <= Radix
    ensures multiset(Gather(s, n, b)) == multiset(AtLeast(s, n, b))
    decreases Radix - b
  {
    if b < Radix {
      GatherIsAtLeast(s, n, b + 1);
      AtLeastSplits(s, n, b);
    } else {
      AtLeastBounds(s, n);
    }
  }

  /** A pass moves elements between positions but loses or adds none. */
  lemma GatherPermutes(s: seq<int>, n: int)
    ensures multiset(Gather(s, n, 0)) == multiset(s)
    ensures |Gather(s, n, 0)| == |s|
  {
    GatherIsAtLeast(s, n, 0);
    AtLeastBounds(s, n);
    assert |multiset(Gather(s, n, 0))| == |Gather(s, n, 0)|;
  }

  lemma LastSplit(s: seq<int>)
    requires s != []
    ensures s == s[..|s| - 1] + [s[|s| - 1]]
  {
  }

  /** The keys `Low(., i)` never decrease along `s`. */
  ghost predicate SortedLow(s: seq<int>, i: int)
  {
    forall p, q | 0 <= p < q < |s| :: Low(s[p], i) <= Low(s[q], i)
  }

  /** Euclidean division has one remainder: `x = a*m + b` with `0 <= b < m` fixes `b`. */
  lemma ModUnique(x: int, a: int, m: int, b: int)
    requires m > 0 && 0 <= b < m && x == a * m + b
    ensures x % m == b
  {
    var q, r := x / m, x % m;
    assert (q - a) * m == b - r by {
      assert q * m + r == a * m + b;
    }
    if q - a >= 1 {
      MulAtLeast(q - a, m);
    } else if q - a <= -1 {
      MulAtLeast(a - q, m);
    }
  }

  lemma MulAtLeast(k: int, m: int)
    requires k >= 1 && m > 0
    ensures k * m >= m
  {
  }

  /** A higher leading digit outweighs whatever follows it. */
  lemma DigitDominates(dx: int, dy: int, rx: int, ry: int, p: int)
    requires 0 <= dx < dy && 0 <= rx < p && 0 <= ry
    ensures dx * p + rx < dy * p + ry
  {
    MulAtLeast(dy - dx, p);
    assert dy * p - dx * p == (dy - dx) * p;
  }

  /** The low `i + 1` digits are digit `i + 1` followed by the low `i` digits. */
  lemma LowStep(x: int, i: int)
    requires i >= 0
    ensures Low(x, i + 1) == GetDigit(x, i + 1) * Pow10(i) + Low(x, i)
  {
    var p := Pow10(i);
    var q, r := x / p, x % p;
    var d, q2 := q % 10, q / 10;
    assert x == q * p + r;
    assert q == q2 * 10 + d;
    assert x == q2 * (10 * p) + (d * p + r) by {
      assert q * p == (q2 * 10 + d) * p == q2 * (10 * p) + d * p;
    }
    assert 0 <= d * p + r < 10 * p by {
      assert d * p <= 9 * p;
    }
    assert Pow10(i + 1) == 10 * p;
    ModUnique(x, q2, 10 * p, d * p + r);
  }

  /** How two elements compare on `i + 1` low digits: by digit `i + 1`, then by the rest. */
  lemma LowOrder(x: int, y: int, i: int)
    requires i >= 0
    ensures GetDigit(x, i + 1) < GetDigit(y, i + 1) ==> Low(x, i + 1) < Low(y, i + 1)
    ensures GetDigit(x, i + 1) == GetDigit(y, i + 1) && Low(x, i) <= Low(y, i) ==> Low(x, i + 1) <= Low(y, i + 1)
  {
    LowStep(x, i);
    LowStep(y, i);
    var dx, dy := GetDigit(x, i + 1), GetDigit(y, i + 1);
    if dx < dy {
      DigitDominates(dx, dy, Low(x, i), Low(y, i), Pow10(i));
    }
  }

  /** A bucket of a run sorted on the low `i` digits is sorted on them too. */
  lemma {:induction false} BucketSorted(s: seq<int>, n: int, b: int, i: int)
    requires SortedLow(s, i)
    ensures SortedLow(Bucket(s, n, b), i)
    ensures forall k | 0 <= k < |Bucket(s, n, b)| :: Bucket(s, n, b)[k] in multiset(s)
    decreases |s|
  {
    if s != [] {
      var t := s[..|s| - 1];
      assert SortedLow(t, i);
      BucketSorted(t, n, b, i);
      var u := Bucket(t, n, b);
      forall k | 0 <= k < |u| ensures Low(u[k], i) <= Low(s[|s| - 1], i) && u[k] in multiset(s) {
        assert u[k] in multiset(t);
        var p :| 0 <= p < |t| && t[p] == u[k];
        assert s[p] == t[p];
        assert s == t + [s[|s| - 1]];
      }
    }
  }

  /** After the pass on digit `i + 1` of a run sorted on its low `i` digits, the buckets from
      `b` on are sorted on the low `i + 1` digits. */
  lemma {:induction false} GatherSorted(s: seq<int>, i: int, b: int)
    requires i >= 0 && 0 <= b <= Radix && SortedLow(s, i)
    ensures SortedLow(Gather(s, i + 1, b), i + 1)
    decreases Radix - b
  {
    if b < Radix {
      GatherSorted(s, i, b + 1);
      var x, y := Bucket(s, i + 1, b), Gather(s, i + 1, b + 1);
      BucketSorted(s, i + 1, b, i);
      BucketDigits(s, i + 1, b);
      GatherDigits(s, i + 1, b + 1);
      forall p, q | 0 <= p < q < |x| ensures Low(x[p], i + 1) <= Low(x[q], i + 1) {
        LowOrder(x[p], x[q], i);
      }
      forall p, q | 0 <= p < |x| && 0 <= q < |y| ensures Low(x[p], i + 1) <= Low(y[q], i + 1) {
        LowOrder(x[p], y[q], i);
      }
      SortedLowJoin(x, y, i + 1);
    }
  }

  lemma SortedLowJoin(x: seq<int>, y: seq<int>, i: int)
    requires SortedLow(x, i) && SortedLow(y, i)
    requires forall p, q | 0 <= p < |x| && 0 <= q < |y| :: Low(x[p], i) <= Low(y[q], i)
    ensures SortedLow(x + y, i)
  {
    var z := x + y;
    forall p, q | 0 <= p < q < |z| ensures Low(z[p], i) <= Low(z[q], i) {
      if q < |x| {
      } else if p >= |x| {
        assert z[p] == y[p - |x|] && z[q] == y[q - |x|];
      } else {
        assert z[q] == y[q - |x|];
      }
    }
  }

  /** `sort`: passes `i = 0 .. numberOfDigits`, on digits 1 to `numberOfDigits + 1`. The
      source accepts only non-negative integers. After pass `i` the array is sorted on its low
      `i + 1` digits and is a permutation of the input; an empty array, or one of zeros, has a
      negative digit count and no pass at all. */
  method Sort(a: seq<int>) returns (s: seq<int>)
    requires forall k | 0 <= k < |a| :: a[k] >= 0
    ensures Trees.Sorted(s) && multiset(s) == multiset(a)
  {
    var numberOfDigits := MaxNumberOfDigits(a);
    s := a;
    var i := 0;
    while i <= numberOfDigits
      invariant 0 <= i && (numberOfDigits >= 0 ==> i <= numberOfDigits + 1)
      invariant multiset(s) == multiset(a) && |s| == |a|
      invariant SortedLow(s, i)
    {
      GatherSorted(s, i, 0);
      GatherPermutes(s, i + 1);
      s := Pass(s, i + 1);
      i := i + 1;
    }
    SortEnds(a, s, numberOfDigits, i);
  }

  lemma SortEnds(a: seq<int>, s: seq<int>, numberOfDigits: int, i: int)
    requires forall k | 0 <= k < |a| :: a[k] >= 0
    requires forall k | 0 <= k < |a| :: DigitCount(a[k]) <= numberOfDigits
    requires multiset(s) == multiset(a) && SortedLow(s, i) && i >= 0
    requires numberOfDigits >= 0 ==> i == numberOfDigits + 1
    ensures Trees.Sorted(s)
  {
    forall k | 0 <= k < |s| ensures Low(s[k], i) == s[k] {
      assert s[k] in multiset(a);
      var j :| 0 <= j < |a| && a[j] == s[k];
      if s[k] >= 1 {
        PowMonotone(DigitCount(s[k]), i);
      }
      ModUnique(s[k], 0, Pow10(i), s[k]);
    }
  }

  lemma {:induction false} PowMonotone(m: int, n: int)
    requires m <= n
    ensures Pow10(m) <= Pow10(n)
    decreases n - m
  {
    if m < n {
      PowMonotone(m, n - 1);
    }
  }
}
