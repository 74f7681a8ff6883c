/**
 * common_divisors: trial division of both numbers, then the divisors of the
 * first that also occur among the divisors of the second.
 */
module Divisors {
  import opened Arith

  /** The divisors of `n` among 1..k, in ascending order. */
  function DivisorsUpTo(n: int, k: int): seq<int>
    decreases k
  {
    if k <= 0 then [] else DivisorsUpTo(n, k - 1) + (if n % k == 0 then [k] else [])
  }

  /** The elements of `xs` that also occur in `ys`, in the order of `xs`. */
  function KeepIn(xs: seq<int>, ys: seq<int>): seq<int>
  {
    if xs == [] then [] else KeepIn(xs[..|xs| - 1], ys) + (if xs[|xs| - 1] in ys then [xs[|xs| - 1]] else [])
  }

  ghost predicate StrictlyAscending(s: seq<int>) {
    forall i, j :: 0 <= i < j < |s| ==> s[i] < s[j]
  }

  lemma {:induction false} DivisorsUpToMembers(n: int, k: int, x: int)
    ensures x in DivisorsUpTo(n, k) <==> 1 <= x <= k && n % x == 0
    decreases k
  {
    if k > 0 {
      DivisorsUpToMembers(n, k - 1, x);
    }
  }

  lemma {:induction false} DivisorsUpToAscending(n: int, k: int)
    ensures StrictlyAscending(DivisorsUpTo(n, k))
    ensures forall x :: x in DivisorsUpTo(n, k) ==> 1 <= x <= k
    decreases k
  {
    if k > 0 {
      DivisorsUpToAscending(n, k - 1);
      var init := DivisorsUpTo(n, k - 1);
      var s := DivisorsUpTo(n, k);
      forall i, j | 0 <= i < j < |s| ensures s[i] < s[j] {
        if j >= |init| {
          assert s[i] in init;
        }
      }
    }
  }

  lemma {:induction false} KeepInMembers(xs: seq<int>, ys: seq<int>, x: int)
    ensures x in KeepIn(xs, ys) <==> x in xs && x in ys
    decreases |xs|
  {
    if xs != [] {
      KeepInMembers(xs[..|xs| - 1], ys, x);
      assert xs == xs[..|xs| - 1] + [xs[|xs| - 1]];
    }
  }

  lemma {:induction false} KeepInAscending(xs: seq<int>, ys: seq<int>)
    requires StrictlyAscending(xs)
    ensures StrictlyAscending(KeepIn(xs, ys))
    decreases |xs|
  {
    if xs != [] {
      var init := xs[..|xs| - 1];
      KeepInAscending(init, ys);
      var prefix := KeepIn(init, ys);
      forall x | x in prefix ensures x < xs[|xs| - 1] {
        KeepInMembers(init, ys, x);
      }
      var s := KeepIn(xs, ys);
      forall i, j | 0 <= i < j < |s| ensures s[i] < s[j] {
        if j >= |prefix| {
          assert s[i] in prefix;
        }
      }
    }
  }

  /** Euclid's algorithm, the reference for the greatest common divisor. */
  function Gcd(a: nat, b: nat): nat
    decreases b
  {
    if b == 0 then a else Gcd(b, a % b)
  }

  /** One Euclid step keeps the common divisors. */
  lemma EuclidStep(a: nat, b: nat, d: int)
    requires b > 0 && d > 0
    ensures (a % d == 0 && b % d == 0) <==> (b % d == 0 && (a % b) % d == 0)
  {
    var q := a / b;
    assert a == b * q + a % b;
    if b % d == 0 {
      DividesWitness(d, b);
      var y := b / d;
      if a % d == 0 {
        DividesWitness(d, a);
        var x := a / d;
        assert a % b == d * (x - y * q);
        MultipleHasNoRemainder(d, x - y * q);
      }
      if (a % b) % d == 0 {
        DividesWitness(d, a % b);
        var z := (a % b) / d;
        assert a == d * (y * q + z);
        MultipleHasNoRemainder(d, y * q + z);
      }
    }
  }

  /** The common divisors of `a` and `b` are exactly the divisors of Gcd(a, b). */
  lemma {:induction false} GcdDivisors(a: nat, b: nat, d: int)
    requires d > 0
    ensures (a % d == 0 && b % d == 0) <==> Gcd(a, b) % d == 0
    decreases b
  {
    if b > 0 {
      EuclidStep(a, b, d);
      GcdDivisors(b, a % b, d);
    }
  }

  lemma {:induction false} GcdPositive(a: nat, b: nat)
    requires a > 0 || b > 0
    ensures Gcd(a, b) > 0
    decreases b
  {
    if b > 0 {
      GcdPositive(b, a % b);
    }
  }

  /** The common divisors of two numbers, as common_divisors lists them. */
  function CommonList(num1: int, num2: int): seq<int> {
    KeepIn(DivisorsUpTo(num1, num1), DivisorsUpTo(num2, num2))
  }

  /**
   * What the list means: exactly the common divisors, ascending, from 1 up to
   * the greatest common divisor computed by Euclid's algorithm.
   */
  lemma CommonDivisorList(num1: int, num2: int)
    ensures forall x :: x in CommonList(num1, num2) <==> 1 <= x <= num1 && 1 <= x <= num2 && num1 % x == 0 && num2 % x == 0
    ensures StrictlyAscending(CommonList(num1, num2))
    ensures num1 > 0 && num2 > 0 ==> |CommonList(num1, num2)| > 0 && CommonList(num1, num2)[0] == 1
    ensures num1 > 0 && num2 > 0 ==> CommonList(num1, num2)[|CommonList(num1, num2)| - 1] == Gcd(num1, num2)
  {
    var divisors1, divisors2 := DivisorsUpTo(num1, num1), DivisorsUpTo(num2, num2);
    var common := CommonList(num1, num2);
    forall x ensures x in common <==> 1 <= x <= num1 && 1 <= x <= num2 && num1 % x == 0 && num2 % x == 0 {
      KeepInMembers(divisors1, divisors2, x);
      DivisorsUpToMembers(num1, num1, x);
      DivisorsUpToMembers(num2, num2, x);
    }
    DivisorsUpToAscending(num1, num1);
    KeepInAscending(divisors1, divisors2);
    if num1 > 0 && num2 > 0 {
      CommonListEnds(num1, num2, common);
    }
  }

  lemma CommonListEnds(num1: int, num2: int, common: seq<int>)
    requires num1 > 0 && num2 > 0
    requires forall x :: x in common <==> 1 <= x <= num1 && 1 <= x <= num2 && num1 % x == 0 && num2 % x == 0
    requires StrictlyAscending(common)
    ensures |common| > 0 && common[0] == 1 && common[|common| - 1] == Gcd(num1, num2)
  {
    assert 1 in common;
    var g := Gcd(num1, num2);
    GcdPositive(num1, num2);
    GcdDivisors(num1, num2, g);
    MultipleHasNoRemainder(g, 1);
    DivisorBound(g, num1);
    DivisorBound(g, num2);
    assert g in common;
    var last := common[|common| - 1];
    assert last in common;
    GcdDivisors(num1, num2, last);
    DivisorBound(last, g);
    var kg :| 0 <= kg < |common| && common[kg] == g;
    assert common[kg] <= last;
    var k1 :| 0 <= k1 < |common| && common[k1] == 1;
    assert common[0] in common;
    assert common[0] <= common[k1];
  }

  /**
   * common_divisors. The final sort of the source leaves the list as it is,
   * since the list is built in strictly ascending order.
   */
  method CommonDivisors(num1: int, num2: int) returns (common: seq<int>)
    ensures forall x :: x in common <==> 1 <= x <= num1 && 1 <= x <= num2 && num1 % x == 0 && num2 % x == 0
    ensures StrictlyAscending(common)
    ensures num1 > 0 && num2 > 0 ==> |common| > 0 && common[0] == 1 && common[|common| - 1] == Gcd(num1, num2)
  {
    var divisors1: seq<int> := [];
    var divisors2: seq<int> := [];
    common := [];

    var i := 1;
    while i <= num1
      invariant 1 <= i <= if num1 >= 1 then num1 + 1 else 1
      invariant divisors1 == DivisorsUpTo(num1, i - 1)
    {
      if num1 % i == 0 {
        divisors1 := divisors1 + [i];
      }
      i := i + 1;
    }
    assert divisors1 == DivisorsUpTo(num1, num1);

    i := 1;
    while i <= num2
      invariant 1 <= i <= if num2 >= 1 then num2 + 1 else 1
      invariant divisors2 == DivisorsUpTo(num2, i - 1)
    {
      if num2 % i == 0 {
        divisors2 := divisors2 + [i];
      }
      i := i + 1;
    }
    assert divisors2 == DivisorsUpTo(num2, num2);

    var j := 0;
    while j < |divisors1|
      invariant 0 <= j <= |divisors1|
      invariant common == KeepIn(divisors1[..j], divisors2)
    {
      assert divisors1[..j + 1][..j] == divisors1[..j];
      if divisors1[j] in divisors2 {
        common := common + [divisors1[j]];
      }
      j := j + 1;
    }
    assert divisors1[..j] == divisors1;
    assert common == CommonList(num1, num2);

    CommonDivisorList(num1, num2);
  }

  /** The default split length offered by the UI, 10, divides any two standard resolutions. */
  lemma TenIsCommon(a: int, b: int, common: seq<int>)
    requires a > 0 && b > 0 && a % 10 == 0 && b % 10 == 0
    requires forall x :: x in common <==> 1 <= x <= a && 1 <= x <= b && a % x == 0 && b % x == 0
    ensures 10 in common
  {
    DivisorBound(10, a);
    DivisorBound(10, b);
  }
}
