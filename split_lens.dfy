/**
 * get_split_lens: the query the UI makes before a request, giving the
 * resolution the video will have and the grid sizes that tile it.
 */
module SplitLens {
  import opened Wrappers
  import opened Resolution
  import opened Divisors
  import opened Arith

  /** The reply dictionary: `image_res` and `split_lens`. */
  datatype SplitLensReply = SplitLensReply(imageRes: string, splitLens: seq<int>)

  /** The reply when anything goes wrong. */
  const Fallback: SplitLensReply := SplitLensReply("None", [])

  /** The last component of a '/'-separated path (os.path.basename). */
  function Basename(path: string): (name: string)
    ensures '/' !in name
    ensures |name| <= |path| && name == path[|path| - |name|..]
    ensures |name| < |path| ==> path[|path| - |name| - 1] == '/'
  {
    if path == [] || path[|path| - 1] == '/' then []
    else Basename(path[..|path| - 1]) + [path[|path| - 1]]
  }

  /** Decimal notation of a natural number, as an f-string prints it. */
  function DecimalString(n: nat): (s: string)
    ensures |s| > 0
    ensures forall k :: 0 <= k < |s| ==> '0' <= s[k] <= '9'
    ensures n == 0 ==> s == "0"
    ensures n > 0 ==> s[0] != '0'
    ensures |s| == 1 || s[0] != '0'
    decreases n
  {
    var digit := "0123456789"[n % 10];
    if n < 10 then [digit] else DecimalString(n / 10) + [digit]
  }

  /** The number a string of decimal digits denotes. */
  function DigitsValue(s: string): nat
    requires forall k :: 0 <= k < |s| ==> '0' <= s[k] <= '9'
  {
    if s == [] then 0 else 10 * DigitsValue(s[..|s| - 1]) + (s[|s| - 1] - '0') as nat
  }

  /** Reading the printed number back gives the number: the notation is exact. */
  lemma {:induction false} DecimalStringRoundTrip(n: nat)
    ensures DigitsValue(DecimalString(n)) == n
    decreases n
  {
    var s := DecimalString(n);
    var d := n % 10;
    DigitValue(d);
    assert s[|s| - 1] == "0123456789"[d];
    if n >= 10 {
      DecimalStringRoundTrip(n / 10);
      assert s[..|s| - 1] == DecimalString(n / 10);
    }
  }

  lemma DigitValue(d: nat)
    requires d < 10
    ensures ("0123456789"[d] - '0') as nat == d
  {
  }

  /**
   * For two positive multiples of 10 the list of common divisors holds every
   * divisor of both, with 10 among them.
   */
  lemma PositiveCommonDivisors(a: int, b: int, common: seq<int>)
    requires a > 0 && b > 0 && a % 10 == 0 && b % 10 == 0
    requires forall x :: x in common <==> 1 <= x <= a && 1 <= x <= b && a % x == 0 && b % x == 0
    ensures forall x :: x in common <==> x >= 1 && a % x == 0 && b % x == 0
    ensures 10 in common
  {
    forall x | x >= 1 && a % x == 0 && b % x == 0 ensures x in common {
      DivisorBound(x, a);
      DivisorBound(x, b);
    }
    TenIsCommon(a, b, common);
  }

  /**
   * `decoded` is the shape of the image OpenCV read, or None when it could not
   * read one (NumPy then fails on `.shape`); a zero height fails on the division
   * of the aspect ratio. Both failures give the fallback reply.
   */
  method GetSplitLens(imagePath: string, decoded: Option<Dims>) returns (reply: SplitLensReply)
    ensures decoded.None? || decoded.value.ht == 0 ==> reply == Fallback
    ensures decoded.Some? && decoded.value.ht > 0 ==>
      var d := Snap(decoded.value.ht, decoded.value.wd);
      && reply.imageRes == Basename(imagePath) + ", video resolution: " + DecimalString(d.wd) + " x " + DecimalString(d.ht)
      && (forall x :: x in reply.splitLens <==> x >= 1 && d.ht % x == 0 && d.wd % x == 0)
      && StrictlyAscending(reply.splitLens)
      && |reply.splitLens| > 0 && reply.splitLens[0] == 1
      && 10 in reply.splitLens
  {
    if decoded.None? || decoded.value.ht == 0 {
      return Fallback;
    }
    var d := Snap(decoded.value.ht, decoded.value.wd);
    reply := ReplyFor(imagePath, d);
  }

  /** The reply for a video of `d.ht` by `d.wd` pixels, both positive multiples of 10. */
  method ReplyFor(imagePath: string, d: Dims) returns (reply: SplitLensReply)
    requires d.ht > 0 && d.wd > 0 && d.ht % 10 == 0 && d.wd % 10 == 0
    ensures reply.imageRes == Basename(imagePath) + ", video resolution: " + DecimalString(d.wd) + " x " + DecimalString(d.ht)
    ensures forall x :: x in reply.splitLens <==> x >= 1 && d.ht % x == 0 && d.wd % x == 0
    ensures StrictlyAscending(reply.splitLens)
    ensures |reply.splitLens| > 0 && reply.splitLens[0] == 1
    ensures 10 in reply.splitLens
  {
    var hcfList := CommonDivisors(d.ht, d.wd);
    PositiveCommonDivisors(d.ht, d.wd, hcfList);
    var filename := Basename(imagePath);
    reply := SplitLensReply(filename + ", video resolution: " + DecimalString(d.wd) + " x " + DecimalString(d.ht), hcfList);
  }
}
