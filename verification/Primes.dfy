/** The search for a prime to size hash tables with. */
module Primes {
  import opened Words

  predicate Divides(d: nat, n: nat)
    requires d > 0
  {
    n % d == 0
  }

  predicate Prime(n: nat)
  {
    n >= 2 && forall d: nat :: 2 <= d < n ==> !Divides(d, n)
  }

  /** No divisor from two on whose square is at most the number. */
  ghost predicate PassesTrial(n: nat)
  {
    forall d: nat :: 2 <= d && d * d <= n ==> !Divides(d, n)
  }

  /** Of two factors, one has a square that is at most the product. */
  lemma SmallerFactor(d: nat, e: nat)
    requires 2 <= d < d * e
    ensures 2 <= e < d * e && (d * d <= d * e || e * e <= d * e)
  {
    assert e != 0 && e != 1;
    if d <= e {
      assert d * d <= d * e;
    } else {
      assert e * e <= d * e;
    }
  }

  lemma CoDivisor(d: nat, n: nat)
    requires 2 <= d < n && Divides(d, n)
    ensures 2 <= n / d < n && Divides(n / d, n) && (d * d <= n || (n / d) * (n / d) <= n)
  {
    var e := n / d;
    assert n == d * e;
    SmallerFactor(d, e);
    Multiple(d, e);
  }

  lemma Multiple(d: nat, e: nat)
    requires e > 0
    ensures (d * e) % e == 0
  {
    var q := (d * e) / e;
    var r := (d * e) % e;
    assert d * e == e * q + r;
    assert r == e * (d - q);
    assert d - q >= 1 ==> e * (d - q) >= e;
    assert q - d >= 1 ==> e * (q - d) >= e;
  }

  lemma SquareBound(d: nat, n: nat)
    requires 2 <= d && d * d <= n
    ensures d < n
  {
    assert d * d >= 2 * d;
  }

  /** Dividing up to the square root is enough. */
  lemma TrialIsEnough(n: nat)
    requires n >= 2
    ensures PassesTrial(n) <==> Prime(n)
  {
    if PassesTrial(n) {
      forall d: nat | 2 <= d < n ensures !Divides(d, n) {
        if Divides(d, n) {
          CoDivisor(d, n);
        }
      }
    }
    if Prime(n) {
      forall d: nat | 2 <= d && d * d <= n ensures !Divides(d, n) {
        SquareBound(d, n);
      }
    }
  }

  /** Squares grow, so that the trial may stop at the first one beyond the number. */
  lemma LargerSquare(d: nat, e: nat)
    requires d <= e
    ensures d * d <= e * e
  {
  }

  method HasNoDivisor(n: nat) returns (r: bool)
    requires n >= 2
    ensures r <==> PassesTrial(n)
  {
    var d: nat := 2;
    while d * d <= n
      invariant d >= 2
      invariant forall c: nat :: 2 <= c < d ==> !Divides(c, n)
      decreases n - d
    {
      SquareBound(d, n);
      if n % d == 0 {
        assert Divides(d, n);
        return false;
      }
      d := d + 1;
    }
    forall c: nat | 2 <= c && c * c <= n ensures !Divides(c, n) {
      if c >= d {
        LargerSquare(d, c);
      }
    }
    return true;
  }

  /** The least prime from the start on and below twice the start, or zero exactly when there is none there or
      doubling the start leaves 32 bits. */
  method FindPrime(start: nat) returns (p: nat)
    requires start < WORD
    ensures var s := if start < 2 then 2 else start;
            && (p == 0 <==> 2 * s >= WORD || forall k: nat :: s <= k < 2 * s ==> !Prime(k))
            && (p != 0 ==> Prime(p) && s <= p < 2 * s)
            && (forall k: nat :: s <= k < p ==> !Prime(k))
  {
    var s := if start <= 1 then 2 else start;
    var end := 2 * s % WORD;
    var i := s;
    while i < end
      invariant s <= i
      invariant forall k: nat :: s <= k < i ==> !Prime(k)
      invariant s < end ==> i <= end
    {
      var trial := HasNoDivisor(i);
      TrialIsEnough(i);
      if trial {
        return i;
      }
      i := i + 1;
    }
    return 0;
  }
}
