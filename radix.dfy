/**
 * Least-significant-digit radix sort in base 10. Each pass is a stable
 * counting sort on one decimal digit, `(v / exp) % 10` with Java's
 * truncating `/` and `%`. For a negative element that digit can be
 * negative, and the pass then fails on a negative array index.
 */
module Radix {
  import opened SortSpec
  import opened Arith

  /** Java's integer `/`: the quotient rounded toward zero. */
  function JavaDiv(x: int, d: int): int
    requires d > 0
  {
    if x >= 0 then x / d else -((-x) / d)
  }

  /** Java's integer `%`: the remainder takes the sign of the dividend. */
  function JavaRem(x: int, d: int): int
    requires d > 0
  {
    if x >= 0 then x % d else -((-x) % d)
  }

  /**
   * Java's `/` and `%` round toward zero: the quotient's multiple lies
   * between zero and the dividend, less than `d` away from it, and the
   * remainder is what is left over, with the sign of the dividend.
   */
  lemma JavaDivision(x: int, d: int)
    requires d > 0
    ensures x == JavaDiv(x, d) * d + JavaRem(x, d)
    ensures x >= 0 ==> 0 <= JavaRem(x, d) < d
    ensures x < 0 ==> -d < JavaRem(x, d) <= 0
  {
  }

  /** The digit that the pass for `exp` sorts on, as line 317 computes it. */
  function Digit(v: int, exp: int): (d: int)
    requires exp > 0
    ensures -10 < d < 10
  {
    JavaRem(JavaDiv(v, exp), 10)
  }

  /**
   * A non-negative element has the usual decimal digit, and so does an
   * element above `-exp` (its digit is 0); only those can be bucketed.
   */
  lemma DigitOfSmall(v: int, exp: int)
    requires exp > 0 && -exp < v
    ensures 0 <= Digit(v, exp)
    ensures v >= 0 ==> Digit(v, exp) == (v / exp) % 10
  {
    if v < 0 {
      DivSmall(-v, exp);
    } else {
      DivNonNegative(v, exp);
    }
  }

  /** Every element has a digit that is a valid counting index, so the pass does not fail. */
  ghost predicate DigitsValid(s: seq<int>, exp: int)
    requires exp > 0
  {
    forall k :: 0 <= k < |s| ==> Digit(s[k], exp) >= 0
  }

  /** The elements of `s` whose digit is `d`, in their order in `s`. */
  function Bucket(s: seq<int>, exp: int, d: int): seq<int>
    requires exp > 0
  {
    if |s| == 0 then []
    else (if Digit(s[0], exp) == d then [s[0]] else []) + Bucket(s[1..], exp, d)
  }

  /** The buckets `0, 1, ..., D - 1`, one after the other. */
  function Buckets(s: seq<int>, exp: int, D: nat): seq<int>
    requires exp > 0
  {
    if D == 0 then [] else Buckets(s, exp, D - 1) + Bucket(s, exp, D - 1)
  }

  /** What one counting-sort pass produces: all ten buckets in digit order. */
  function ByDigit(s: seq<int>, exp: int): seq<int>
    requires exp > 0
  {
    Buckets(s, exp, 10)
  }

  /** Bucketing a concatenation buckets each part. */
  lemma {:induction false} BucketConcat(x: seq<int>, y: seq<int>, exp: int, d: int)
    requires exp > 0
    ensures Bucket(x + y, exp, d) == Bucket(x, exp, d) + Bucket(y, exp, d)
    decreases |x|
  {
    if |x| > 0 {
      BucketConcat(x[1..], y, exp, d);
      assert (x + y)[0] == x[0] && (x + y)[1..] == x[1..] + y;
    } else {
      assert x + y == y;
    }
  }

  /** Bucket `d` of a bucket `e` is the bucket itself when `d == e` and empty otherwise. */
  lemma {:induction false} BucketOfBucket(s: seq<int>, exp: int, d: int, e: int)
    requires exp > 0
    ensures Bucket(Bucket(s, exp, e), exp, d) == if d == e then Bucket(s, exp, e) else []
    decreases |s|
  {
    if |s| > 0 {
      BucketOfBucket(s[1..], exp, d, e);
      var head := if Digit(s[0], exp) == e then [s[0]] else [];
      BucketConcat(head, Bucket(s[1..], exp, e), exp, d);
    }
  }

  /** Every element of bucket `d` has digit `d` and occurs in `s`. */
  lemma {:induction false} BucketMembers(s: seq<int>, exp: int, d: int)
    requires exp > 0
    ensures forall k :: 0 <= k < |Bucket(s, exp, d)| ==>
              Digit(Bucket(s, exp, d)[k], exp) == d && Bucket(s, exp, d)[k] in s
    decreases |s|
  {
    if |s| > 0 {
      BucketMembers(s[1..], exp, d);
      var b := Bucket(s, exp, d);
      var rest := Bucket(s[1..], exp, d);
      forall k | 0 <= k < |b|
        ensures Digit(b[k], exp) == d && b[k] in s
      {
        if Digit(s[0], exp) == d && k == 0 {
        } else if Digit(s[0], exp) == d {
          assert b[k] == rest[k - 1] && rest[k - 1] in s[1..];
        } else {
          assert b[k] == rest[k] && rest[k] in s[1..];
        }
      }
    }
  }

  /** Bucket `d` of the first `D` buckets is bucket `d` of the input when `d < D` and empty otherwise. */
  lemma {:induction false} BucketOfBuckets(s: seq<int>, exp: int, D: nat, d: int)
    requires exp > 0
    ensures Bucket(Buckets(s, exp, D), exp, d) == if 0 <= d < D then Bucket(s, exp, d) else []
    decreases D
  {
    if D > 0 {
      BucketOfBuckets(s, exp, D - 1, d);
      BucketConcat(Buckets(s, exp, D - 1), Bucket(s, exp, D - 1), exp, d);
      BucketOfBucket(s, exp, d, D - 1);
    }
  }

  /**
   * Stability of a pass: the elements with digit `d` come out in the order
   * they went in.
   */
  lemma ByDigitStable(s: seq<int>, exp: int, d: int)
    requires exp > 0 && 0 <= d < 10
    ensures Bucket(ByDigit(s, exp), exp, d) == Bucket(s, exp, d)
  {
    BucketOfBuckets(s, exp, 10, d);
  }

  /** The multiset of bucket `d`: the elements of `s` with digit `d`. */
  lemma {:induction false} BucketMultiset(x: int, t: seq<int>, exp: int, d: int)
    requires exp > 0
    ensures multiset(Bucket([x] + t, exp, d)) ==
              (if Digit(x, exp) == d then multiset{x} else multiset{}) + multiset(Bucket(t, exp, d))
  {
    assert ([x] + t)[1..] == t;
  }

  /** Prepending an element adds it to the buckets that cover its digit. */
  lemma {:induction false} BucketsCons(x: int, t: seq<int>, exp: int, D: nat)
    requires exp > 0
    ensures multiset(Buckets([x] + t, exp, D)) ==
              (if 0 <= Digit(x, exp) < D then multiset{x} else multiset{}) + multiset(Buckets(t, exp, D))
    decreases D
  {
    if D > 0 {
      BucketsCons(x, t, exp, D - 1);
      BucketMultiset(x, t, exp, D - 1);
    }
  }

  /** There is nothing to bucket in an empty sequence. */
  lemma {:induction false} BucketsOfEmpty(s: seq<int>, exp: int, D: nat)
    requires exp > 0 && |s| == 0
    ensures Buckets(s, exp, D) == []
    decreases D
  {
    if D > 0 {
      BucketsOfEmpty(s, exp, D - 1);
    }
  }

  /** A pass over valid digits is a permutation of its input. */
  lemma {:induction false} ByDigitPermutes(s: seq<int>, exp: int)
    requires exp > 0 && DigitsValid(s, exp)
    ensures multiset(ByDigit(s, exp)) == multiset(s)
    ensures |ByDigit(s, exp)| == |s|
    decreases |s|
  {
    if |s| > 0 {
      ByDigitPermutes(s[1..], exp);
      assert s == [s[0]] + s[1..];
      BucketsCons(s[0], s[1..], exp, 10);
      assert multiset(s) == multiset{s[0]} + multiset(s[1..]);
    } else {
      BucketsOfEmpty(s, exp, 10);
    }
    assert |ByDigit(s, exp)| == |multiset(ByDigit(s, exp))|;
  }

  /** A pass leaves the array ordered by the digit: the buckets come in digit order. */
  lemma {:induction false} BucketsOrderedByDigit(s: seq<int>, exp: int, D: nat)
    requires exp > 0
    ensures forall k :: 0 <= k < |Buckets(s, exp, D)| ==> 0 <= Digit(Buckets(s, exp, D)[k], exp) < D
    ensures forall p, q :: 0 <= p < q < |Buckets(s, exp, D)| ==>
              Digit(Buckets(s, exp, D)[p], exp) <= Digit(Buckets(s, exp, D)[q], exp)
    decreases D
  {
    if D > 0 {
      BucketsOrderedByDigit(s, exp, D - 1);
      BucketMembers(s, exp, D - 1);
      var x, y := Buckets(s, exp, D - 1), Bucket(s, exp, D - 1);
      forall k | 0 <= k < |x + y|
        ensures 0 <= Digit((x + y)[k], exp) < D
      {
        if k >= |x| {
          assert (x + y)[k] == y[k - |x|];
        }
      }
      forall p, q | 0 <= p < q < |x + y|
        ensures Digit((x + y)[p], exp) <= Digit((x + y)[q], exp)
      {
        if q >= |x| {
          assert (x + y)[q] == y[q - |x|];
          if p >= |x| {
            assert (x + y)[p] == y[p - |x|];
          }
        }
      }
    }
  }

  // ---- Ordering across passes (least significant digit first) ----

  /** Every element is non-negative. */
  ghost predicate NonNegative(s: seq<int>) {
    forall k :: 0 <= k < |s| ==> s[k] >= 0
  }

  /** `s` is ordered by the low part `v % e` of its elements. */
  ghost predicate SortedMod(s: seq<int>, e: int)
    requires e > 0
  {
    forall p, q :: 0 <= p < q < |s| ==> s[p] % e <= s[q] % e
  }

  /**
   * The low part modulo `10 * e` of a non-negative value is its digit for
   * `e` followed by its low part modulo `e`.
   */
  lemma LowPartSplit(v: int, e: int)
    requires v >= 0 && e > 0
    ensures 0 <= Digit(v, e) < 10
    ensures v % (10 * e) == Digit(v, e) * e + v % e
  {
    DigitOfSmall(v, e);
    var q, r := v / e, v % e;
    var d, h := q % 10, q / 10;
    assert v == e * q + r;
    assert q == 10 * h + d;
    assert v == (10 * e) * h + (d * e + r);
    MulMonotone(d, 9, e);
    DivModUnique(v, 10 * e, h, d * e + r);
  }

  /** With non-negative values, a smaller digit means a smaller low part modulo `10 * e`. */
  lemma LowPartOrder(x: int, y: int, e: int)
    requires x >= 0 && y >= 0 && e > 0
    ensures Digit(x, e) < Digit(y, e) ==> x % (10 * e) < y % (10 * e)
    ensures Digit(x, e) == Digit(y, e) ==> (x % (10 * e) <= y % (10 * e) <==> x % e <= y % e)
  {
    var dx, dy := Digit(x, e), Digit(y, e);
    LowPartSplit(x, e);
    LowPartSplit(y, e);
    if dx < dy {
      MulMonotone(dx + 1, dy, e);
      assert (dx + 1) * e == dx * e + e;
    }
  }

  /** A bucket keeps the order of its input: it is a subsequence. */
  lemma {:induction false} BucketSortedMod(s: seq<int>, exp: int, d: int, e: int)
    requires exp > 0 && e > 0 && SortedMod(s, e)
    ensures SortedMod(Bucket(s, exp, d), e)
    decreases |s|
  {
    if |s| > 0 {
      BucketSortedMod(s[1..], exp, d, e);
      BucketMembers(s[1..], exp, d);
      var rest := Bucket(s[1..], exp, d);
      if Digit(s[0], exp) == d {
        forall q | 0 <= q < |rest|
          ensures s[0] % e <= rest[q] % e
        {
          var k :| 0 <= k < |s[1..]| && s[1..][k] == rest[q];
          assert s[0] % e <= s[k + 1] % e;
        }
        var b := [s[0]] + rest;
        forall p, q | 0 <= p < q < |b|
          ensures b[p] % e <= b[q] % e
        {
          assert b[q] == rest[q - 1];
          if p > 0 {
            assert b[p] == rest[p - 1];
          }
        }
      }
    }
  }

  /** Elements of the first `D` buckets come from the input. */
  lemma {:induction false} BucketsMembers(s: seq<int>, exp: int, D: nat)
    requires exp > 0
    ensures forall k :: 0 <= k < |Buckets(s, exp, D)| ==> Buckets(s, exp, D)[k] in s
    decreases D
  {
    if D > 0 {
      BucketsMembers(s, exp, D - 1);
      BucketMembers(s, exp, D - 1);
      var x, y := Buckets(s, exp, D - 1), Bucket(s, exp, D - 1);
      forall k | 0 <= k < |x + y|
        ensures (x + y)[k] in s
      {
        if k >= |x| {
          assert (x + y)[k] == y[k - |x|];
        } else {
          assert (x + y)[k] == x[k];
        }
      }
    }
  }

  /**
   * The first `D` buckets of a sequence of non-negative values ordered by
   * the low part modulo `e` are ordered by the low part modulo `10 * e`.
   */
  lemma {:induction false} BucketsSortedMod(s: seq<int>, e: int, D: nat)
    requires e > 0 && NonNegative(s) && SortedMod(s, e)
    ensures SortedMod(Buckets(s, e, D), 10 * e)
    decreases D
  {
    if D > 0 {
      BucketsSortedMod(s, e, D - 1);
      BucketsOrderedByDigit(s, e, D - 1);
      BucketsMembers(s, e, D - 1);
      BucketMembers(s, e, D - 1);
      BucketSortedMod(s, e, D - 1, e);
      var x, y := Buckets(s, e, D - 1), Bucket(s, e, D - 1);
      forall p, q | 0 <= p < q < |x + y|
        ensures (x + y)[p] % (10 * e) <= (x + y)[q] % (10 * e)
      {
        if q >= |x| {
          var v := y[q - |x|];
          assert (x + y)[q] == v && v in s;
          if p >= |x| {
            var u := y[p - |x|];
            assert (x + y)[p] == u && u in s;
            LowPartOrder(u, v, e);
          } else {
            var u := x[p];
            assert (x + y)[p] == u && u in s;
            LowPartOrder(u, v, e);
          }
        } else {
          assert (x + y)[p] == x[p] && (x + y)[q] == x[q];
        }
      }
    }
  }

  /**
   * One pass on the digit for `exp` extends the order of the non-negative
   * input from the low part modulo `exp` to the low part modulo `10 * exp`.
   */
  lemma PassSortsNextDigit(s: seq<int>, exp: int)
    requires exp > 0 && NonNegative(s) && SortedMod(s, exp)
    ensures SortedMod(ByDigit(s, exp), 10 * exp)
  {
    BucketsSortedMod(s, exp, 10);
  }

  // ---- One counting-sort pass on the array ----

  /** Appending an element adds it to its own bucket. */
  lemma BucketSnoc(s: seq<int>, x: int, exp: int, d: int)
    requires exp > 0
    ensures Bucket(s + [x], exp, d) == Bucket(s, exp, d) + (if Digit(x, exp) == d then [x] else [])
  {
    BucketConcat(s, [x], exp, d);
    assert [x][1..] == [];
  }

  /** Prepending an element adds it in front of its own bucket. */
  lemma BucketCons(x: int, s: seq<int>, exp: int, d: int)
    requires exp > 0
    ensures Bucket([x] + s, exp, d) == (if Digit(x, exp) == d then [x] else []) + Bucket(s, exp, d)
  {
    assert ([x] + s)[0] == x && ([x] + s)[1..] == s;
  }

  /**
   * `st[d]` is where bucket `d` starts in the output of a pass: the sizes
   * of the buckets before it. `st[10]` is the size of the whole output.
   */
  ghost predicate IsStarts(s: seq<int>, exp: int, st: seq<int>)
    requires exp > 0
  {
    |st| == 11 && st[0] == 0 &&
    (forall d :: 0 <= d <= 10 ==> 0 <= st[d] <= st[10]) &&
    forall d :: 0 <= d < 10 ==> st[d + 1] == st[d] + |Bucket(s, exp, d)|
  }

  /** The start offsets of the buckets of `s`. */
  ghost function Starts(s: seq<int>, exp: int): (st: seq<int>)
    requires exp > 0
    ensures IsStarts(s, exp, st)
    ensures st[10] == |ByDigit(s, exp)|
  {
    var st := seq(11, d requires 0 <= d => |Buckets(s, exp, d)|);
    forall d | 0 <= d <= 10
      ensures st[d] <= st[10]
    {
      BucketsGrow(s, exp, d, 10);
    }
    st
  }

  /** Later buckets start no earlier. */
  lemma {:induction false} BucketsGrow(s: seq<int>, exp: int, d: nat, e: nat)
    requires exp > 0 && d <= e
    ensures |Buckets(s, exp, d)| <= |Buckets(s, exp, e)|
    decreases e
  {
    if d < e {
      BucketsGrow(s, exp, d, e - 1);
    }
  }

  /** Start offsets grow with the digit. */
  lemma {:induction false} StartsGrow(s: seq<int>, exp: int, st: seq<int>, d: int, e: int)
    requires exp > 0 && IsStarts(s, exp, st) && 0 <= d <= e <= 10
    ensures st[d] <= st[e]
    decreases e
  {
    if d < e {
      StartsGrow(s, exp, st, d, e - 1);
    }
  }

  /**
   * Tallies the digits of `a` into `count`, as the first loop of the pass
   * does. A negative digit is an out-of-range index in Java, so the tally
   * stops there and the pass fails.
   */
  method CountDigits(a: array<int>, exp: int, count: array<int>) returns (ok: bool)
    requires exp > 0 && count.Length == 10 && count != a
    requires forall d :: 0 <= d < 10 ==> count[d] == 0
    modifies count
    ensures ok == DigitsValid(a[..], exp)
    ensures ok ==> forall d :: 0 <= d < 10 ==> count[d] == |Bucket(a[..], exp, d)|
  {
    var i := 0;
    while i < a.Length
      invariant 0 <= i <= a.Length
      invariant DigitsValid(a[..i], exp)
      invariant forall d :: 0 <= d < 10 ==> count[d] == |Bucket(a[..i], exp, d)|
    {
      var digit := Digit(a[i], exp);
      if digit < 0 {
        assert a[..][i] == a[i];
        return false;
      }
      assert a[..i + 1] == a[..i] + [a[i]];
      forall d | 0 <= d < 10
        ensures Bucket(a[..i + 1], exp, d) == Bucket(a[..i], exp, d) + (if digit == d then [a[i]] else [])
      {
        BucketSnoc(a[..i], a[i], exp, d);
      }
      count[digit] := count[digit] + 1;
      i := i + 1;
    }
    assert a[..i] == a[..];
    return true;
  }

  /** Turns the tally into end offsets: `count[d]` becomes the start of bucket `d + 1`. */
  method PrefixSums(count: array<int>, ghost s: seq<int>, exp: int, ghost st: seq<int>)
    requires exp > 0 && count.Length == 10 && IsStarts(s, exp, st)
    requires forall d :: 0 <= d < 10 ==> count[d] == |Bucket(s, exp, d)|
    modifies count
    ensures forall d :: 0 <= d < 10 ==> count[d] == st[d + 1]
  {
    var i := 1;
    while i < 10
      invariant 1 <= i <= 10
      invariant forall d :: 0 <= d < i ==> count[d] == st[d + 1]
      invariant forall d :: i <= d < 10 ==> count[d] == |Bucket(s, exp, d)|
    {
      count[i] := count[i] + count[i - 1];
      i := i + 1;
    }
  }

  /**
   * The state of the backward placement loop once the elements from
   * `s[i]` on are placed: `cnt[d]` is where the next element of bucket
   * `d` goes (one past it), and the tail of bucket `d`'s region
   * `[st[d], st[d + 1])` already holds the bucket's elements from
   * `s[i..]`, in order.
   */
  ghost predicate PlaceState(s: seq<int>, exp: int, st: seq<int>, i: int, cnt: seq<int>, out: seq<int>)
    requires exp > 0
  {
    IsStarts(s, exp, st) && st[10] == |out| &&
    0 <= i <= |s| && |cnt| == 10 && |out| == |s| && DigitsValid(s, exp) &&
    forall d :: 0 <= d < 10 ==> Placed(s, exp, st, i, cnt, out, d)
  }

  /** Bucket `d` in the state of the placement loop. */
  ghost predicate Placed(s: seq<int>, exp: int, st: seq<int>, i: int, cnt: seq<int>, out: seq<int>, d: int)
    requires exp > 0 && IsStarts(s, exp, st) && st[10] == |out|
    requires 0 <= i <= |s| && |cnt| == 10 && 0 <= d < 10
  {
    cnt[d] == st[d] + |Bucket(s[..i], exp, d)| &&
    cnt[d] <= st[d + 1] &&
    out[cnt[d]..st[d + 1]] == Bucket(s[i..], exp, d)
  }

  /** Before placement every bucket's region is still to be filled. */
  lemma PlaceInit(s: seq<int>, exp: int, st: seq<int>, cnt: seq<int>, out: seq<int>)
    requires exp > 0 && DigitsValid(s, exp) && |cnt| == 10 && |out| == |s|
    requires st == Starts(s, exp)
    requires forall d :: 0 <= d < 10 ==> cnt[d] == st[d + 1]
    ensures PlaceState(s, exp, st, |s|, cnt, out)
  {
    ByDigitPermutes(s, exp);
    assert s[..|s|] == s;
    assert s[|s|..] == [];
    forall d | 0 <= d < 10
      ensures cnt[d] <= |out|
    {
      StartsGrow(s, exp, st, d + 1, 10);
    }
  }

  /** The next element to place, `s[i - 1]`, has room in its bucket's region. */
  lemma PlaceRoom(s: seq<int>, exp: int, st: seq<int>, i: int, cnt: seq<int>, out: seq<int>)
    requires exp > 0 && PlaceState(s, exp, st, i, cnt, out) && i > 0
    ensures 0 <= Digit(s[i - 1], exp) < 10
    ensures 0 < cnt[Digit(s[i - 1], exp)] <= |out|
  {
    var d := Digit(s[i - 1], exp);
    assert Placed(s, exp, st, i, cnt, out, d);
    assert s[..i] == s[..i - 1] + [s[i - 1]];
    BucketSnoc(s[..i - 1], s[i - 1], exp, d);
    assert cnt[d] <= st[d + 1];
    StartsGrow(s, exp, st, 0, d);
  }

  /** Writing just below a slice extends the slice by the written value. */
  lemma WriteBelow(out: seq<int>, lo: int, hi: int, x: int)
    requires 0 < lo <= hi <= |out|
    ensures out[lo - 1 := x][lo - 1..hi] == [x] + out[lo..hi]
  {
  }

  /** Writing outside a slice leaves the slice alone. */
  lemma WriteOutside(out: seq<int>, p: int, lo: int, hi: int, x: int)
    requires 0 <= p < |out| && 0 <= lo <= hi <= |out| && (p < lo || hi <= p)
    ensures out[p := x][lo..hi] == out[lo..hi]
  {
  }

  /** Placing the element with digit `d0` keeps the state of bucket `d`. */
  lemma PlaceStepAt(s: seq<int>, exp: int, st: seq<int>, i: int, cnt: seq<int>, out: seq<int>,
                    d0: int, j: int, cnt2: seq<int>, out2: seq<int>, d: int)
    requires exp > 0 && PlaceState(s, exp, st, i, cnt, out) && i > 0 && j == i - 1
    requires d0 == Digit(s[i - 1], exp) && 0 <= d0 < 10 && st[d0] <= cnt[d0] - 1 < st[d0 + 1]
    requires cnt2 == cnt[d0 := cnt[d0] - 1] && out2 == out[cnt[d0] - 1 := s[i - 1]]
    requires 0 <= d < 10
    ensures |cnt2| == 10 && |out2| == |out|
    ensures Placed(s, exp, st, j, cnt2, out2, d)
  {
    assert Placed(s, exp, st, i, cnt, out, d);
    var x := s[i - 1];
    assert s[..i] == s[..i - 1] + [x];
    assert s[i - 1..] == [x] + s[i..];
    BucketSnoc(s[..i - 1], x, exp, d);
    BucketCons(x, s[i..], exp, d);
    var hi := st[d + 1];
    assert cnt[d] <= hi && out[cnt[d]..hi] == Bucket(s[i..], exp, d);
    if d == d0 {
      WriteBelow(out, cnt[d0], hi, x);
    } else {
      if d < d0 {
        StartsGrow(s, exp, st, d + 1, d0);
      } else {
        StartsGrow(s, exp, st, d0 + 1, d);
      }
      WriteOutside(out, cnt[d0] - 1, cnt[d], hi, x);
    }
  }

  /** Placing `s[i - 1]` just below its bucket's offset and lowering the offset keeps the state. */
  lemma PlaceStep(s: seq<int>, exp: int, st: seq<int>, i: int, cnt: seq<int>, out: seq<int>, d0: int)
    requires exp > 0 && PlaceState(s, exp, st, i, cnt, out) && i > 0
    requires d0 == Digit(s[i - 1], exp) && 0 <= d0 < 10 && 0 < cnt[d0] <= |out|
    ensures PlaceState(s, exp, st, i - 1, cnt[d0 := cnt[d0] - 1], out[cnt[d0] - 1 := s[i - 1]])
  {
    assert s[..i] == s[..i - 1] + [s[i - 1]];
    BucketSnoc(s[..i - 1], s[i - 1], exp, d0);
    assert Placed(s, exp, st, i, cnt, out, d0);
    assert st[d0] <= cnt[d0] - 1 < st[d0 + 1];
    var j, cnt2, out2 := i - 1, cnt[d0 := cnt[d0] - 1], out[cnt[d0] - 1 := s[i - 1]];
    forall d | 0 <= d < 10 {
      PlaceStepAt(s, exp, st, i, cnt, out, d0, j, cnt2, out2, d);
    }
  }

  /** When every bucket's region holds its bucket, the output starts with the buckets in digit order. */
  lemma {:induction false} Assemble(s: seq<int>, exp: int, st: seq<int>, out: seq<int>, D: int)
    requires exp > 0 && IsStarts(s, exp, st) && st[10] <= |out| && 0 <= D <= 10
    requires forall d :: 0 <= d < D ==> out[st[d]..st[d + 1]] == Bucket(s, exp, d)
    ensures st[D] <= |out|
    ensures out[..st[D]] == Buckets(s, exp, D)
    decreases D
  {
    if D > 0 {
      Assemble(s, exp, st, out, D - 1);
      var lo, hi := st[D - 1], st[D];
      assert lo <= hi <= |out|;
      assert out[lo..hi] == Bucket(s, exp, D - 1);
      assert out[..hi] == out[..lo] + out[lo..hi];
    }
  }

  /** The final state of the placement loop is the whole pass. */
  lemma PlaceDone(s: seq<int>, exp: int, st: seq<int>, cnt: seq<int>, out: seq<int>)
    requires exp > 0 && PlaceState(s, exp, st, 0, cnt, out)
    ensures out == ByDigit(s, exp)
  {
    assert s[..0] == [] && s[0..] == s;
    forall d | 0 <= d < 10
      ensures out[st[d]..st[d + 1]] == Bucket(s, exp, d)
    {
      assert Placed(s, exp, st, 0, cnt, out, d);
    }
    Assemble(s, exp, st, out, 10);
    assert out[..|out|] == out;
  }

  /**
   * The backward placement loop: walks the input from its last element to
   * its first and puts each element just below its bucket's offset, which
   * keeps equal digits in input order.
   */
  method PlaceBackwards(a: array<int>, exp: int, count: array<int>, output: array<int>, ghost st: seq<int>)
    requires exp > 0 && count.Length == 10 && output.Length == a.Length
    requires count != a && output != a && output != count
    requires DigitsValid(a[..], exp) && st == Starts(a[..], exp)
    requires forall d :: 0 <= d < 10 ==> count[d] == st[d + 1]
    modifies count, output
    ensures output[..] == ByDigit(a[..], exp)
  {
    ghost var s := a[..];
    PlaceInit(s, exp, st, count[..], output[..]);
    var i := a.Length - 1;
    while i >= 0
      invariant -1 <= i < a.Length
      invariant PlaceState(s, exp, st, i + 1, count[..], output[..])
    {
      PlaceOne(a, exp, count, output, st, s, i);
      i := i - 1;
    }
    PlaceDone(s, exp, st, count[..], output[..]);
  }

  /**
   * One step of the backward placement loop: `a[i]` goes just below the
   * end offset its digit's counter holds, and that counter drops by one.
   */
  method PlaceOne(a: array<int>, exp: int, count: array<int>, output: array<int>, ghost st: seq<int>,
                  ghost s: seq<int>, i: int)
    requires exp > 0 && count.Length == 10 && output.Length == a.Length
    requires count != a && output != a && output != count
    requires s == a[..] && 0 <= i < a.Length
    requires PlaceState(s, exp, st, i + 1, count[..], output[..])
    modifies count, output
    ensures PlaceState(s, exp, st, i, count[..], output[..])
  {
    var digit := Digit(a[i], exp);
    assert s[i] == a[i];
    PlaceRoom(s, exp, st, i + 1, count[..], output[..]);
    PlaceStep(s, exp, st, i + 1, count[..], output[..], digit);
    var pos := count[digit] - 1;
    ghost var o0 := output[..];
    output[pos] := a[i];
    assert output[..] == o0[pos := a[i]];
    ghost var c0 := count[..];
    count[digit] := pos;
    assert count[..] == c0[digit := pos];
  }

  /**
   * One pass of the radix sort, `countingSortByDigit`: a stable counting
   * sort of the array on the digit for `exp`. It fails, leaving the array
   * as it was, exactly when some element has a negative digit.
   */
  method CountingSortByDigit(a: array<int>, exp: int) returns (ok: bool)
    requires exp > 0
    modifies a
    ensures ok == DigitsValid(old(a[..]), exp)
    ensures ok ==> a[..] == ByDigit(old(a[..]), exp)
    ensures !ok ==> a[..] == old(a[..])
  {
    var n := a.Length;
    var output := new int[n];
    var count := new int[10](_ => 0);
    ok := CountDigits(a, exp, count);
    if !ok {
      return;
    }
    ghost var st := Starts(a[..], exp);
    PrefixSums(count, a[..], exp, st);
    PlaceBackwards(a, exp, count, output, st);
    forall k | 0 <= k < n {
      a[k] := output[k];
    }
    assert a[..] == output[..];
  }

  // ---- The whole sort ----

  /** A positive Java quotient means the dividend is at least the divisor. */
  lemma QuotientPositive(max: int, exp: int)
    requires exp > 0 && JavaDiv(max, exp) > 0
    ensures exp <= max
  {
    if max < exp {
      if max >= 0 {
        DivSmall(max, exp);
      } else {
        DivNonNegative(-max, exp);
      }
    }
  }

  /**
   * What `radixSort` computes once it reaches the pass for `exp`, with
   * `max` the largest element of the original array: passes run while
   * `max / exp > 0`, and `None` stands for the exception a pass throws.
   */
  ghost function RadixFrom(s: seq<int>, exp: int, max: int): Option<seq<int>>
    requires exp > 0
    decreases max - exp
  {
    if JavaDiv(max, exp) <= 0 then Some(s)
    else if !DigitsValid(s, exp) then None
    else
      QuotientPositive(max, exp);
      RadixFrom(ByDigit(s, exp), 10 * exp, max)
  }

  /** What `radixSort` computes from the whole array. */
  ghost function RadixResult(s: seq<int>): Option<seq<int>> {
    RadixFrom(s, 1, MaxOrZero(s))
  }

  /** `10` to the power `t`: the values `exp` takes. */
  ghost function Pow10(t: nat): (p: int)
    ensures p >= 1
  {
    if t == 0 then 1 else 10 * Pow10(t - 1)
  }

  /** Powers of ten grow with the exponent. */
  lemma {:induction false} Pow10Grows(t: nat, u: nat)
    requires t < u
    ensures Pow10(t) < Pow10(u)
    decreases u
  {
    if t < u - 1 {
      Pow10Grows(t, u - 1);
    }
  }

  /**
   * Below 10^9 the next power of ten is at most 10^9, so with elements
   * below 10^9 the `exp *= 10` of the loop stays within Java's `int`.
   */
  lemma NextPowerBounded(t: nat)
    requires Pow10(t) < 1_000_000_000
    ensures 10 * Pow10(t) <= 1_000_000_000
  {
    assert Pow10(9) == 1_000_000_000;
    if t >= 9 {
      if t > 9 {
        Pow10Grows(9, t);
      }
      assert false;
    }
    if t + 1 < 9 {
      Pow10Grows(t + 1, 9);
    }
  }

  /**
   * `radixSort`: one counting-sort pass per decimal digit of the maximum,
   * least significant first. The result is what `RadixResult` says; when a
   * pass throws (`ok` false) the array holds the passes done so far, still
   * a permutation. The elements are below 10^9, which keeps `exp` a power
   * of ten no larger than 10^9, so it never overflows.
   */
  method RadixSort(a: array<int>) returns (ok: bool)
    requires forall k :: 0 <= k < a.Length ==> a[k] < 1_000_000_000
    modifies a
    ensures ok <==> RadixResult(old(a[..])).Some?
    ensures ok ==> a[..] == RadixResult(old(a[..])).value
    ensures multiset(a[..]) == old(multiset(a[..]))
  {
    var max := MaxOrZero(a[..]);
    assert max < 1_000_000_000 by {
      if a.Length > 0 {
        var k :| 0 <= k < a.Length && a[..][k] == max;
      }
    }
    var exp := 1;
    ghost var t: nat := 0;
    while JavaDiv(max, exp) > 0
      invariant exp == Pow10(t) && exp <= 1_000_000_000
      invariant RadixFrom(a[..], exp, max) == RadixResult(old(a[..]))
      invariant multiset(a[..]) == old(multiset(a[..]))
      decreases max - exp
    {
      QuotientPositive(max, exp);
      ghost var s := a[..];
      ok := CountingSortByDigit(a, exp);
      if !ok {
        return;
      }
      ByDigitPermutes(s, exp);
      NextPowerBounded(t);
      exp := exp * 10;
      t := t + 1;
    }
    ok := true;
  }

  /** Every value is its own low part modulo a modulus above it. */
  lemma SmallIsLowPart(v: int, e: int)
    requires 0 <= v < e
    ensures v % e == v
  {
    DivModUnique(v, e, 0, v);
  }

  /**
   * Passes from `exp` on, over non-negative values at most `max` already
   * ordered modulo `exp`, all succeed and end sorted.
   */
  lemma {:induction false} RadixFromSorts(s: seq<int>, exp: int, max: int)
    requires exp > 0 && NonNegative(s) && SortedMod(s, exp)
    requires forall k :: 0 <= k < |s| ==> s[k] <= max
    ensures RadixFrom(s, exp, max).Some?
    ensures Sorted(RadixFrom(s, exp, max).value)
    ensures multiset(RadixFrom(s, exp, max).value) == multiset(s)
    decreases max - exp
  {
    if JavaDiv(max, exp) <= 0 {
      assert max < exp by {
        if max >= exp {
          DivPositive(max, exp);
        }
      }
      forall p, q | 0 <= p < q < |s|
        ensures s[p] <= s[q]
      {
        SmallIsLowPart(s[p], exp);
        SmallIsLowPart(s[q], exp);
      }
    } else {
      assert DigitsValid(s, exp) by {
        forall k | 0 <= k < |s|
          ensures Digit(s[k], exp) >= 0
        {
          DigitOfSmall(s[k], exp);
        }
      }
      QuotientPositive(max, exp);
      var t := ByDigit(s, exp);
      ByDigitPermutes(s, exp);
      PassSortsNextDigit(s, exp);
      BoundsFromMultiset(s, t, 0, max);
      RadixFromSorts(t, 10 * exp, max);
    }
  }

  /**
   * Radix sort of non-negative values succeeds and sorts: the result is
   * non-decreasing and a permutation of the input.
   */
  lemma RadixSortsNonNegative(s: seq<int>)
    requires NonNegative(s)
    ensures RadixResult(s).Some?
    ensures Sorted(RadixResult(s).value)
    ensures multiset(RadixResult(s).value) == multiset(s)
  {
    forall p, q | 0 <= p < q < |s|
      ensures s[p] % 1 <= s[q] % 1
    {
      DivModUnique(s[p], 1, s[p], 0);
      DivModUnique(s[q], 1, s[q], 0);
    }
    RadixFromSorts(s, 1, MaxOrZero(s));
  }

  /** Whenever no pass throws, the result is a permutation of the input, negative values or not. */
  lemma {:induction false} RadixFromPermutes(s: seq<int>, exp: int, max: int)
    requires exp > 0 && RadixFrom(s, exp, max).Some?
    ensures multiset(RadixFrom(s, exp, max).value) == multiset(s)
    decreases max - exp
  {
    if JavaDiv(max, exp) > 0 {
      QuotientPositive(max, exp);
      ByDigitPermutes(s, exp);
      RadixFromPermutes(ByDigit(s, exp), 10 * exp, max);
    }
  }

  /** With a maximum of at most zero the loop does not run, and the array is left as it is. */
  lemma RadixNonPositiveMax(s: seq<int>)
    requires MaxOrZero(s) <= 0
    ensures RadixResult(s) == Some(s)
  {
    if MaxOrZero(s) < 0 {
      DivNonNegative(-MaxOrZero(s), 1);
    }
  }

  /**
   * A negative element whose last decimal digit is not 0, next to a
   * positive maximum, makes the first pass index the tally with a negative
   * digit: the sort throws.
   */
  lemma RadixThrowsOnNegative(s: seq<int>, k: int)
    requires 0 <= k < |s| && s[k] < 0 && (-s[k]) % 10 != 0
    requires MaxOrZero(s) > 0
    ensures RadixResult(s) == None
  {
    var m := MaxOrZero(s);
    DivModUnique(m, 1, m, 0);
    assert JavaDiv(m, 1) > 0;
    DivModUnique(-s[k], 1, -s[k], 0);
    assert JavaDiv(s[k], 1) == s[k];
    assert Digit(s[k], 1) == -((-s[k]) % 10) < 0;
    assert !DigitsValid(s, 1);
    assert RadixFrom(s, 1, m) == None;
  }

  /** The one pass over `[-1000, 5, -2000]`: bucket 0 holds both negative elements, bucket 5 the other one. */
  lemma NegativeExamplePass()
    ensures DigitsValid([-1000, 5, -2000], 1)
    ensures ByDigit([-1000, 5, -2000], 1) == [-1000, -2000, 5]
  {
    var s := [-1000, 5, -2000];
    assert Digit(-1000, 1) == 0 && Digit(5, 1) == 5 && Digit(-2000, 1) == 0;
    forall d | 0 <= d < 10
      ensures Bucket(s, 1, d) == if d == 0 then [-1000, -2000] else if d == 5 then [5] else []
    {
      assert Bucket(s[2..][1..], 1, d) == [];
      assert Bucket(s[2..], 1, d) == if d == 0 then [-2000] else [];
      assert Bucket(s[1..], 1, d) == if d == 0 then [-2000] else if d == 5 then [5] else [];
    }
    assert Buckets(s, 1, 1) == [-1000, -2000];
    assert Buckets(s, 1, 2) == [-1000, -2000];
    assert Buckets(s, 1, 3) == [-1000, -2000];
    assert Buckets(s, 1, 4) == [-1000, -2000];
    assert Buckets(s, 1, 5) == [-1000, -2000];
    assert Buckets(s, 1, 6) == [-1000, -2000, 5];
    assert Buckets(s, 1, 7) == [-1000, -2000, 5];
    assert Buckets(s, 1, 8) == [-1000, -2000, 5];
    assert Buckets(s, 1, 9) == [-1000, -2000, 5];
  }

  /**
   * Negative elements whose last digit is 0 do not make the sort throw,
   * and the result need not be sorted: only the last digit is examined,
   * and there both negative elements have digit 0.
   */
  lemma RadixNegativeUnsorted()
    ensures RadixResult([-1000, 5, -2000]) == Some([-1000, -2000, 5])
    ensures !Sorted(RadixResult([-1000, 5, -2000]).value)
  {
    var s := [-1000, 5, -2000];
    assert MaxOrZero(s) == 5;
    NegativeExamplePass();
    assert JavaDiv(5, 10) == 0;
    var t := [-1000, -2000, 5];
    assert t[0] > t[1];
  }

  /** The first pass over `[-10, 50]`: both elements have digit 0, so the order stays. */
  lemma LaterExampleFirstPass()
    ensures DigitsValid([-10, 50], 1)
    ensures ByDigit([-10, 50], 1) == [-10, 50]
  {
    var s := [-10, 50];
    assert Digit(-10, 1) == 0 && Digit(50, 1) == 0;
    forall d | 0 <= d < 10
      ensures Bucket(s, 1, d) == if d == 0 then s else []
    {
      assert Bucket(s[1..][1..], 1, d) == [];
      assert Bucket(s[1..], 1, d) == if d == 0 then [50] else [];
    }
    assert Buckets(s, 1, 1) == s;
    assert Buckets(s, 1, 2) == s;
    assert Buckets(s, 1, 3) == s;
    assert Buckets(s, 1, 4) == s;
    assert Buckets(s, 1, 5) == s;
    assert Buckets(s, 1, 6) == s;
    assert Buckets(s, 1, 7) == s;
    assert Buckets(s, 1, 8) == s;
    assert Buckets(s, 1, 9) == s;
  }

  /**
   * A throw need not come in the first pass: in `[-10, 50]` the last digits
   * are both 0, and the pass for `exp = 10` finds the digit -1 of -10.
   */
  lemma RadixLaterPassThrows()
    ensures RadixResult([-10, 50]) == None
  {
    var s := [-10, 50];
    assert MaxOrZero(s) == 50;
    LaterExampleFirstPass();
    assert JavaDiv(50, 1) == 50 && JavaDiv(50, 10) == 5;
    assert Digit(s[0], 10) == -1;
    assert !DigitsValid(s, 10);
  }

  /** The example with a negative element: the first pass throws. */
  lemma RadixExampleThrows()
    ensures RadixResult([-5, 10, 3]) == None
  {
    var s := [-5, 10, 3];
    assert MaxOrZero(s) == 10;
    assert (-s[0]) % 10 == 5;
    RadixThrowsOnNegative(s, 0);
  }
}
