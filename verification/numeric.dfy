/** Arithmetic shared by the table builders: the clamp to the 8-bit range, the
    float-to-uint8 cast, and the sums that summarise a histogram. */
module Numeric {

  /** Largest value an 8-bit unsigned sample can hold. */
  const ByteMax := 255

  predicate IsByte(x: int) { 0 <= x <= ByteMax }

  predicate AllBytes(s: seq<int>) { forall k :: 0 <= k < |s| ==> IsByte(s[k]) }

  /** The two `np.where` passes of the integer builders: values above 255
      become 255, then values below 0 become 0. */
  function ClampByte(x: int): (r: int)
    ensures IsByte(r)
    ensures IsByte(x) ==> r == x
    ensures x > ByteMax ==> r == ByteMax
    ensures x < 0 ==> r == 0
  {
    var capped := if x > ByteMax then ByteMax else x;
    if capped < 0 then 0 else capped
  }

  /** The same two passes over a floating-point table, in exact arithmetic. */
  function ClampReal(x: real): (r: real)
    ensures 0.0 <= r <= ByteMax as real
    ensures 0.0 <= x <= ByteMax as real ==> r == x
    ensures x > ByteMax as real ==> r == ByteMax as real
    ensures x < 0.0 ==> r == 0.0
  {
    var capped := if x > ByteMax as real then ByteMax as real else x;
    if capped < 0.0 then 0.0 else capped
  }

  /** numpy's cast to uint8 of a float already clamped to [0, 255]:
      truncation toward zero, which on non-negative values is the floor. */
  function Truncate(x: real): (r: int)
    requires 0.0 <= x <= ByteMax as real
    ensures IsByte(r)
    ensures r as real <= x < r as real + 1.0
  {
    x.Floor
  }

  /** The floor of an exact quotient of naturals is their integer quotient. */
  lemma FloorOfQuotient(a: nat, b: nat)
    requires b > 0
    ensures (a as real / b as real).Floor == a / b
  {
    var q, m := a / b, a % b;
    assert a == q * b + m && 0 <= m < b;
    var x := a as real / b as real;
    assert x * b as real == a as real;
    assert x == q as real + m as real / b as real by {
      assert (q as real + m as real / b as real) * b as real == q as real * b as real + m as real;
      assert (q * b + m) as real == q as real * b as real + m as real;
    }
    assert 0.0 <= m as real / b as real < 1.0;
    assert q as real <= x < q as real + 1.0;
  }

  /** If `a <= c * b` then the integer quotient `a / b` is at most `c`. */
  lemma QuotientBound(a: nat, b: nat, c: nat)
    requires b > 0 && a <= c * b
    ensures a / b <= c
  {
  }

  /** Integer division is determined by the quotient-remainder decomposition. */
  lemma DivUnique(p: int, b: int, q: int, m: int)
    requires b > 0 && p == q * b + m && 0 <= m < b
    ensures p / b == q
  {
    var k := p / b - q;
    assert k * b == m - p % b;
    assert k >= 1 ==> k * b >= b;
    assert k <= -1 ==> k * b <= -b;
  }

  lemma MulDivCancel(a: nat, b: nat)
    requires b > 0
    ensures (a * b) / b == a
  {
    DivUnique(a * b, b, a, 0);
  }

  lemma QuotientAtMostOne(a: nat, b: nat)
    requires 0 < b && a <= b
    ensures 0.0 <= a as real / b as real <= 1.0
  {
  }

  /** Scaling an exact quotient scales its numerator. */
  lemma ScaledQuotient(a: nat, b: nat, c: nat)
    requires b > 0
    ensures (a as real / b as real) * c as real == (c * a) as real / b as real
  {
  }

  /** A share of a total, scaled by 255, is an exact quotient within [0, 255]. */
  lemma ScaledShare(part: nat, total: nat)
    requires 0 < total && part <= total
    ensures (part as real / total as real) * ByteMax as real == (ByteMax * part) as real / total as real
    ensures 0.0 <= (part as real / total as real) * ByteMax as real <= ByteMax as real
  {
    ScaledQuotient(part, total, ByteMax);
    QuotientAtMostOne(part, total);
  }

  /** Total of a sequence of counts, accumulated from the front. */
  function Sum(s: seq<nat>): nat
  {
    if s == [] then 0 else Sum(s[..|s| - 1]) + s[|s| - 1]
  }

  /** First moment of a histogram: the sum of `i * s[i]`. */
  function Moment(s: seq<nat>): nat
  {
    if s == [] then 0 else Moment(s[..|s| - 1]) + (|s| - 1) * s[|s| - 1]
  }

  /** Total of a sequence of reals, accumulated from the front. */
  function RealSum(s: seq<real>): real
  {
    if s == [] then 0.0 else RealSum(s[..|s| - 1]) + s[|s| - 1]
  }

  /** Extending a prefix by one element adds that element to the total. */
  lemma SumPrefixStep(s: seq<nat>, k: nat)
    requires k < |s|
    ensures Sum(s[..k + 1]) == Sum(s[..k]) + s[k]
  {
    assert s[..k + 1][..k] == s[..k];
  }

  /** A longer prefix of counts never has a smaller total. */
  lemma {:induction false} SumPrefixMonotone(s: seq<nat>, i: nat, j: nat)
    requires i <= j <= |s|
    ensures Sum(s[..i]) <= Sum(s[..j])
  {
    if i < j {
      SumPrefixMonotone(s, i, j - 1);
      SumPrefixStep(s, j - 1);
    }
  }

  /** A prefix made of zero counts totals zero. */
  lemma {:induction false} SumZeroPrefix(s: seq<nat>, k: nat)
    requires k <= |s|
    requires forall j :: 0 <= j < k ==> s[j] == 0
    ensures Sum(s[..k]) == 0
  {
    if k > 0 {
      SumZeroPrefix(s, k - 1);
      SumPrefixStep(s, k - 1);
    }
  }

  /** When every count from index k on is zero, the prefix up to k already holds the whole total. */
  lemma {:induction false} SumZeroTail(s: seq<nat>, k: nat)
    requires k <= |s|
    requires forall j :: k <= j < |s| ==> s[j] == 0
    ensures Sum(s[..k]) == Sum(s)
    decreases |s| - k
  {
    if k == |s| {
      assert s[..k] == s;
    } else {
      SumZeroTail(s, k + 1);
      SumPrefixStep(s, k);
    }
  }

  /** One step of the moment bound: if m <= k * t then m + (k + 1) * l <= (k + 1) * (t + l). */
  lemma MomentStep(m: nat, t: nat, l: nat, k: nat)
    requires m <= k * t
    ensures m + (k + 1) * l <= (k + 1) * (t + l)
  {
    assert (k + 1) * (t + l) == k * t + t + (k + 1) * l;
  }

  /** Every index is at most |s| - 1, so the moment is at most (|s| - 1) times the total. */
  lemma {:induction false} MomentBound(s: seq<nat>)
    ensures Moment(s) <= (|s| - 1) * Sum(s)
  {
    if s != [] {
      var init := s[..|s| - 1];
      if init == [] {
        assert Moment(s) == 0;
      } else {
        MomentBound(init);
        MomentStep(Moment(init), Sum(init), s[|s| - 1], |init| - 1);
      }
    }
  }

  /** A histogram with one count in each of n bins totals n and has moment n(n-1)/2. */
  lemma {:induction false} OnesSumAndMoment(n: nat)
    ensures Sum(seq(n, _ => 1)) == n
    ensures 2 * Moment(seq(n, _ => 1)) == n * (n - 1)
  {
    if n > 0 {
      var s: seq<nat> := seq(n, _ => 1);
      assert s[..n - 1] == seq(n - 1, _ => 1);
      OnesSumAndMoment(n - 1);
    }
  }
}
