/** Greatest common divisors: Euclid's loop and its fold over all upstream weights. */
module Gcds {
  import opened Sums

  predicate Divides(d: int, x: int)
    requires d > 0
  {
    x % d == 0
  }

  lemma MultipleDivides(d: int, k: int)
    requires d > 0
    ensures Divides(d, k * d)
  {
    var q, r := (k * d) / d, (k * d) % d;
    assert (k - q) * d == r;
    assert k - q >= 1 ==> (k - q) * d >= d;
    assert k - q <= -1 ==> (k - q) * d <= -d;
  }

  /** Divisors pass through x - k * y. */
  lemma DividesCombination(d: int, x: int, y: int, k: int)
    requires d > 0 && Divides(d, x) && Divides(d, y)
    ensures Divides(d, x + k * y)
  {
    var a, b := x / d, y / d;
    assert x + k * y == (a + k * b) * d by {
      assert x == a * d && y == b * d;
      assert k * (b * d) == (k * b) * d;
      assert (a + k * b) * d == a * d + (k * b) * d;
    }
    MultipleDivides(d, a + k * b);
  }

  ghost predicate DividesBoth(d: int, x: int, y: int) {
    d > 0 && Divides(d, x) && Divides(d, y)
  }

  ghost predicate IsGcd(g: int, x: int, y: int) {
    && DividesBoth(g, x, y)
    && forall d :: DividesBoth(d, x, y) ==> Divides(d, g)
  }

  /** One step of Euclid's loop keeps the common divisors. */
  lemma RemainderKeepsDivisors(d: int, x: int, y: int)
    requires y > 0
    ensures DividesBoth(d, x, y) <==> DividesBoth(d, x % y, y)
  {
    var k := x / y;
    assert x == x % y + k * y;
    if DividesBoth(d, x, y) {
      DividesCombination(d, x, y, -k);
    }
    if DividesBoth(d, x % y, y) {
      DividesCombination(d, x % y, y, k);
    }
  }

  lemma SelfDivides(x: int)
    requires x > 0
    ensures Divides(x, x)
  {
  }

  lemma DivisorAtMost(d: int, x: int)
    requires d > 0 && x > 0 && Divides(d, x)
    ensures d <= x
  {
  }

  /** Euclid's rule, and that it finds the greatest common divisor. */
  function Euclid(x: int, y: int): (g: int)
    requires x > 0 && y > 0
    ensures IsGcd(g, x, y)
    decreases x + y, y
  {
    EuclidStep(x, y);
    if x < y then Euclid(y, x) else if x % y == 0 then y else Euclid(x % y, y)
  }

  lemma EuclidStep(x: int, y: int)
    requires x > 0 && y > 0
    ensures forall d :: DividesBoth(d, x, y) <==> DividesBoth(d, y, x)
    ensures forall d :: DividesBoth(d, x, y) <==> DividesBoth(d, x % y, y)
    ensures x % y == 0 ==> DividesBoth(y, x, y)
  {
    forall d ensures DividesBoth(d, x, y) <==> DividesBoth(d, x % y, y) {
      RemainderKeepsDivisors(d, x, y);
    }
    SelfDivides(y);
  }

  /** The selector's loop. */
  method Gcd(x0: int, y0: int) returns (g: int)
    requires x0 > 0 && y0 > 0
    ensures IsGcd(g, x0, y0)
  {
    hide IsGcd;
    var x, y := x0, y0;
    while true
      invariant x > 0 && y > 0 && Euclid(x, y) == Euclid(x0, y0)
      decreases x + y
    {
      if x < y {
        x, y := y, x;
      }
      var tmp := x % y;
      if tmp == 0 {
        return y;
      }
      x := tmp;
    }
  }

  ghost predicate DividesAll(d: int, s: seq<int>) {
    d > 0 && forall i :: 0 <= i < |s| ==> Divides(d, s[i])
  }

  ghost predicate IsGcdOf(g: int, s: seq<int>) {
    && DividesAll(g, s)
    && forall d :: DividesAll(d, s) ==> Divides(d, g)
  }

  /** Two numbers that divide each other are equal, so the divisor properties fix the result. */
  lemma GcdOfUnique(a: int, b: int, s: seq<int>)
    requires IsGcdOf(a, s) && IsGcdOf(b, s)
    ensures a == b
  {
    DivisorAtMost(a, b);
    DivisorAtMost(b, a);
  }

  lemma GcdSnoc(g: int, s: seq<int>, x: int, h: int)
    requires IsGcdOf(g, s) && IsGcd(h, g, x)
    ensures IsGcdOf(h, s + [x])
  {
    forall i | 0 <= i < |s + [x]| ensures Divides(h, (s + [x])[i]) {
      if i < |s| {
        DividesTransitive(h, g, s[i]);
      }
    }
    forall d | DividesAll(d, s + [x]) ensures Divides(d, h) {
      forall i | 0 <= i < |s| ensures Divides(d, s[i]) {
        assert (s + [x])[i] == s[i];
      }
      assert (s + [x])[|s|] == x;
      assert DividesAll(d, s);
      assert DividesBoth(d, g, x);
    }
  }

  lemma DividesTransitive(a: int, b: int, c: int)
    requires a > 0 && b > 0 && Divides(a, b) && Divides(b, c)
    ensures Divides(a, c)
  {
    DividesCombination(a, 0, b, c / b);
    assert c == (c / b) * b;
  }

  lemma SingletonGcd(x: int)
    requires x > 0
    ensures IsGcdOf(x, [x])
  {
    SelfDivides(x);
    forall d | DividesAll(d, [x]) ensures Divides(d, x) {
      assert [x][0] == x;
    }
  }

  /** Some number has the divisor properties. */
  lemma {:induction false} GcdExists(s: Weights) returns (g: int)
    ensures IsGcdOf(g, s)
  {
    var n := |s| - 1;
    if n == 0 {
      g := s[0];
      SingletonGcd(g);
      assert s == [g];
    } else {
      var prefix: seq<int> := s[..n];
      assert AllPositive(prefix);
      var h := GcdExists(prefix);
      g := Euclid(h, s[n]);
      GcdSnoc(h, prefix, s[n], g);
      assert s == prefix + [s[n]];
    }
  }

  /** The greatest common divisor of all weights, by its defining property. */
  ghost function GcdOf(s: Weights): (g: int)
    ensures IsGcdOf(g, s) && 1 <= g
    ensures forall i :: 0 <= i < |s| ==> g <= s[i]
  {
    assert exists g :: IsGcdOf(g, s) by {
      var g := GcdExists(s);
    }
    var g :| IsGcdOf(g, s);
    assert forall i :: 0 <= i < |s| ==> g <= s[i] by {
      forall i | 0 <= i < |s| ensures g <= s[i] {
        DivisorAtMost(g, s[i]);
      }
    }
    g
  }
}
