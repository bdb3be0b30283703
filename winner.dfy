/**
 * The winner rule (`GetWinner`, Program.cs): the moves stand in a circle,
 * and each move beats the (n-1)/2 moves just behind it and loses to the
 * ones just ahead of it.
 */
module Winner {

  function Sign(x: int): int
  {
    if x > 0 then 1 else if x < 0 then -1 else 0
  }

  /** The remainder of C#'s `%` on `int`, `x - n * (x / n)` with division
      truncating toward zero: take away whole multiples of n, moving toward
      zero, until less than n is left. The remainder keeps the dividend's sign. */
  function TruncRem(x: int, n: int): (r: int)
    requires n > 0
    ensures -n < r < n
    ensures x >= 0 ==> r >= 0
    ensures x <= 0 ==> r <= 0
    decreases if x >= 0 then x else -x
  {
    if -n < x < n then x
    else if x >= n then TruncRem(x - n, n)
    else TruncRem(x + n, n)
  }

  lemma MulStep(q: int, n: int)
    ensures (q + 1) * n == q * n + n
  {
  }

  /** The whole multiples taken away: `x` is a quotient q, truncated
      toward zero, times n plus the remainder. */
  lemma {:induction false} TruncRemQuotient(x: int, n: int) returns (q: int)
    requires n > 0
    ensures x == q * n + TruncRem(x, n)
    ensures x >= 0 ==> q >= 0
    ensures x <= 0 ==> q <= 0
    decreases if x >= 0 then x else -x
  {
    if -n < x < n {
      q := 0;
    } else if x >= n {
      var q' := TruncRemQuotient(x - n, n);
      q := q' + 1;
      MulStep(q', n);
    } else {
      var q' := TruncRemQuotient(x + n, n);
      q := q' - 1;
      MulStep(q, n);
    }
  }

  /** `Math.Sign((a - b + p + n) % n - p)` with `p = n / 2`: 1 when `a`
      wins, -1 when `b` wins, 0 for a draw. */
  function GetWinner(a: int, b: int, n: int): (r: int)
    requires n > 0
    ensures -1 <= r <= 1
  {
    var p := n / 2;
    Sign(TruncRem(a - b + p + n, n) - p)
  }

  /** The number of steps from `b` forward to `a` round the circle of n
      moves. */
  function Distance(a: int, b: int, n: int): int
    requires 0 <= a < n && 0 <= b < n
  {
    if a >= b then a - b else a - b + n
  }

  /** The distance is the mathematical remainder of `a - b`; it is zero
      only from a move to itself, and the two ways round make a full lap. */
  lemma DistanceMeaning(a: int, b: int, n: int)
    requires 0 <= a < n && 0 <= b < n
    ensures Distance(a, b, n) == (a - b) % n
    ensures 0 <= Distance(a, b, n) < n
    ensures Distance(a, b, n) == 0 <==> a == b
    ensures a != b ==> Distance(a, b, n) + Distance(b, a, n) == n
  {
    if a < b {
      assert 0 <= a - b + n < n;
    }
  }

  /** `a` beats `b` when `b` lies between one and (n-1)/2 steps behind
      `a` going round the circle of n moves. */
  predicate Beats(a: int, b: int, n: int)
    requires 0 <= a < n && 0 <= b < n
  {
    1 <= Distance(a, b, n) <= (n - 1) / 2
  }

  /** The mathematical remainder of a dividend in [n, 3n). */
  lemma ModBelowThrice(x: int, n: int)
    requires n > 0 && n <= x < 3 * n
    ensures x % n == if x < 2 * n then x - n else x - 2 * n
  {
  }

  /** Below three times the divisor, a non-negative dividend needs at most
      two subtractions, and the result is the mathematical remainder. */
  lemma SmallTruncRem(x: int, n: int)
    requires n > 0 && 0 <= x < 3 * n
    ensures TruncRem(x, n) == x % n
  {
    if x >= n {
      assert TruncRem(x, n) == TruncRem(x - n, n);
      if x >= 2 * n {
        assert TruncRem(x - n, n) == TruncRem(x - 2 * n, n);
      }
      ModBelowThrice(x, n);
    }
  }

  /** For indices in range the dividend is positive, so C#'s truncating
      `%` agrees with the mathematical remainder. */
  lemma DividendPositive(a: int, b: int, n: int)
    requires 0 <= a < n && 0 <= b < n
    ensures a - b + n / 2 + n > 0
    ensures TruncRem(a - b + n / 2 + n, n) == (a - b + n / 2 + n) % n
  {
    SmallTruncRem(a - b + n / 2 + n, n);
  }

  /** The remainder GetWinner signs, written with the distance `e` from
      `b` forward to `a`: it wraps round once when `e + n/2` reaches n. */
  lemma GetWinnerByDistance(a: int, b: int, n: int)
    requires 0 <= a < n && 0 <= b < n
    ensures var e, p := Distance(a, b, n), n / 2;
      GetWinner(a, b, n) == Sign(if e + p < n then e else e - n)
  {
    var e, p := Distance(a, b, n), n / 2;
    var x := a - b + p + n;
    if a >= b {
      assert x == e + p + n;
      assert TruncRem(x, n) == TruncRem(e + p, n);
    } else {
      assert x == e + p;
    }
    if e + p >= n {
      assert TruncRem(e + p, n) == TruncRem(e + p - n, n) == e + p - n;
    }
  }

  /** What `GetWinner` decides, for any n > 0 and indices in range: a
      draw exactly on equal indices, a win exactly when `a` beats `b`. */
  lemma GetWinnerMeaning(a: int, b: int, n: int)
    requires 0 <= a < n && 0 <= b < n
    ensures GetWinner(a, b, n) == 0 <==> a == b
    ensures GetWinner(a, b, n) == 1 <==> Beats(a, b, n)
    ensures GetWinner(a, b, n) == -1 <==> a != b && !Beats(a, b, n)
  {
    GetWinnerByDistance(a, b, n);
    assert n - 1 - n / 2 == (n - 1) / 2;
  }

  /** For an odd number of moves the rule is antisymmetric: swapping the
      two moves swaps winner and loser (and a draw stays a draw). */
  lemma GetWinnerAntisymmetric(a: int, b: int, n: int)
    requires n % 2 == 1
    requires 0 <= a < n && 0 <= b < n
    ensures GetWinner(a, b, n) == -GetWinner(b, a, n)
  {
    GetWinnerMeaning(a, b, n);
    GetWinnerMeaning(b, a, n);
    if a != b {
      assert n == 2 * ((n - 1) / 2) + 1;
      assert Distance(a, b, n) + Distance(b, a, n) == n;
    }
  }

  /** With an even number of moves the rule is not antisymmetric: of
      four moves, 0 and 2 each lose to the other. This is why the move
      count must be odd. */
  lemma EvenCountIsUnfair()
    ensures GetWinner(0, 2, 4) == -1 && GetWinner(2, 0, 4) == -1
  {
  }
}
