/**
  The field/group backend the engine is generic over (`F: PrimeField`, `G: Group + ScalarMul<F>`), in
  the discrete-logarithm model: the scalar field is the integers modulo `order`, and every group
  element is held as its discrete logarithm to the base of the default generator, also modulo
  `order`. Group addition is then addition, scalar multiplication is multiplication, the identity
  is 0, the default generator is 1 and negation is `order - x`.

  The Rust type parameter `F` becomes a value of type `Backend`: its order, and the canonical
  decoder of field elements from bytes (`bytes_to_field`, which rejects non-canonical encodings).
*/
module Algebra {
  import opened Wrappers

  newtype byte = b: int | 0 <= b < 0x100

  /** A field element; canonical when below the order. */
  type Scalar = nat

  /** A group element, as its discrete logarithm to the base of the default generator. */
  type Point = nat

  ghost predicate IsPrime(n: nat) {
    n >= 2 && forall d :: 2 <= d < n ==> n % d != 0
  }

  datatype Backend = Backend(order: nat, fromBytes: seq<byte> -> Option<Scalar>) {

    /** A usable backend: a non-trivial order, and a decoder that yields only canonical elements. */
    ghost predicate Valid() {
      order >= 2 && forall bytes :: fromBytes(bytes).Some? ==> fromBytes(bytes).value < order
    }

    // ----- the scalar field F -----

    function One(): Scalar {
      1
    }

    /** `F::from(n as u64)`: the integer n reduced into the field. */
    function FromInt(n: nat): Scalar
      requires Valid()
    {
      n % order
    }

    function Add(a: Scalar, b: Scalar): Scalar
      requires Valid()
    {
      (a + b) % order
    }

    function Mul(a: Scalar, b: Scalar): Scalar
      requires Valid()
    {
      (a * b) % order
    }

    // ----- the group G -----

    function Identity(): Point {
      0
    }

    /** `G::generator()`, the default generator, whose discrete logarithm is 1. */
    function Generator(): Point {
      1
    }

    predicate IsPoint(p: Point) {
      p < order
    }

    function PointAdd(p: Point, q: Point): Point
      requires Valid()
    {
      (p + q) % order
    }

    function Neg(p: Point): Point
      requires Valid()
    {
      (order - p % order) % order
    }

    /** `p * s` for a point p and a scalar s. */
    function ScalarMul(p: Point, s: Scalar): Point
      requires Valid()
    {
      (p * s) % order
    }
  }

  // ----- integer facts about Euclidean remainder -----

  lemma ModUnique(x: int, m: int, q: int, r: int)
    requires m > 0 && x == q * m + r && 0 <= r < m
    ensures x % m == r
  {
    var d := q - x / m;
    assert d * m == x % m - r;
  }

  lemma ModShift(k: int, m: int, c: int)
    requires m > 0
    ensures (k * m + c) % m == c % m
  {
    assert k * m + c == (k + c / m) * m + c % m;
    ModUnique(k * m + c, m, k + c / m, c % m);
  }

  /** Below twice the modulus, only 0 and the modulus itself are multiples of it. */
  lemma ModZeroBelowTwice(x: int, m: int)
    requires m > 0 && 0 <= x < 2 * m
    ensures x % m == 0 <==> x == 0 || x == m
  {
    if x < m {
      ModUnique(x, m, 0, x);
    } else {
      ModUnique(x, m, 1, x - m);
    }
  }

  lemma ModAddMod(a: int, b: int, m: int)
    requires m > 0
    ensures (a % m + b % m) % m == (a + b) % m
  {
    assert a + b == (a / m + b / m) * m + (a % m + b % m);
    ModShift(a / m + b / m, m, a % m + b % m);
  }

  lemma ModMulMod(a: int, b: int, m: int)
    requires m > 0
    ensures (a % m * b) % m == (a * b) % m
  {
    assert a * b == (a / m * b) * m + a % m * b;
    ModShift(a / m * b, m, a % m * b);
  }

  lemma ModMulModRight(a: int, b: int, m: int)
    requires m > 0
    ensures (a * (b % m)) % m == (a * b) % m
  {
    ModMulMod(b, a, m);
  }

  /** Euclid's lemma: a prime dividing a product of a and b, with 0 < a < p, divides b. */
  lemma {:induction false} EuclidPrime(p: nat, a: nat, b: int)
    requires IsPrime(p) && 0 < a < p && (a * b) % p == 0
    ensures b % p == 0
    decreases a
  {
    if a > 1 {
      var q, r := p / a, p % a;
      assert p % a != 0;
      var k := (a * b) / p;
      assert a * b == k * p;
      assert r * b == (b - q * k) * p by {
        calc {
          r * b;
          (p - q * a) * b;
          p * b - q * (a * b);
          p * b - q * (k * p);
          (b - q * k) * p;
        }
      }
      ModShift(b - q * k, p, 0);
      EuclidPrime(p, r, b);
    }
  }

  // ----- laws of the backend that the commitment protocols rely on -----

  lemma IdentityLaws(f: Backend, p: Point)
    requires f.Valid() && f.IsPoint(p)
    ensures f.PointAdd(f.Identity(), p) == p && f.PointAdd(p, f.Identity()) == p
    ensures f.ScalarMul(p, f.One()) == p
  {
    ModUnique(p, f.order, 0, p);
  }

  lemma ZeroLaws(f: Backend, p: Point, a: Scalar)
    requires f.Valid()
    ensures f.ScalarMul(p, 0) == f.Identity() && f.Mul(a, 0) == 0
  {
    ModUnique(0, f.order, 0, 0);
  }

  /** Negating a point gives its additive inverse. */
  lemma NegInverse(f: Backend, g: Point)
    requires f.Valid()
    ensures (f.Neg(g) + g) % f.order == 0
  {
    var m, u, n := f.order, g % f.order, f.Neg(g);
    assert n + u == 0 || n + u == m by {
      if u == 0 {
        ModUnique(m, m, 1, 0);
      } else {
        ModUnique(m - u, m, 0, m - u);
      }
    }
    ModUnique(n, m, 0, n);
    ModAddMod(n, g, m);
    ModZeroBelowTwice(n + u, m);
  }

  /** `-g * s` is the additive inverse of `g * s`. */
  lemma NegScalarMul(f: Backend, g: Point, s: Scalar)
    requires f.Valid()
    ensures (f.ScalarMul(f.Neg(g), s) + f.ScalarMul(g, s)) % f.order == 0
  {
    var m, n := f.order, f.Neg(g);
    var c := n + g;
    assert c % m == 0 by {
      NegInverse(f, g);
    }
    assert (c * s) % m == 0 by {
      ModMulMod(c, s, m);
      assert c % m * s == 0;
    }
    assert n * s + g * s == c * s;
    ModAddMod(n * s, g * s, m);
  }

  /** The verification equation: `-g * s + rhs` is the identity exactly when `g * s == rhs`. */
  lemma VerifyEquation(f: Backend, g: Point, s: Scalar, rhs: Point)
    requires f.Valid() && f.IsPoint(rhs)
    ensures f.PointAdd(f.ScalarMul(f.Neg(g), s), rhs) == f.Identity() <==> f.ScalarMul(g, s) == rhs
  {
    var m := f.order;
    var a, b := f.ScalarMul(f.Neg(g), s), f.ScalarMul(g, s);
    assert 0 <= a < m && 0 <= b < m;
    NegScalarMul(f, g, s);
    ModZeroBelowTwice(a + b, m);
    ModZeroBelowTwice(a + rhs, m);
    assert f.PointAdd(a, rhs) == (a + rhs) % m;
  }

  lemma ScalarMulAssociates(f: Backend, p: Point, a: Scalar, b: Scalar)
    requires f.Valid()
    ensures f.ScalarMul(f.ScalarMul(p, a), b) == f.ScalarMul(p, f.Mul(a, b))
  {
    ModMulMod(p * a, b, f.order);
    ModMulModRight(p, a * b, f.order);
    assert p * a * b == p * (a * b);
  }

  lemma ScalarMulDistributesOverAdd(f: Backend, p: Point, a: Scalar, b: Scalar)
    requires f.Valid()
    ensures f.PointAdd(f.ScalarMul(p, a), f.ScalarMul(p, b)) == f.ScalarMul(p, f.Add(a, b))
  {
    var m := f.order;
    ModAddMod(p * a, p * b, m);
    ModMulModRight(p, a + b, m);
    assert p * a + p * b == p * (a + b);
  }

  lemma ScalarMulDistributesOverPointAdd(f: Backend, p: Point, q: Point, a: Scalar)
    requires f.Valid()
    ensures f.ScalarMul(f.PointAdd(p, q), a) == f.PointAdd(f.ScalarMul(p, a), f.ScalarMul(q, a))
  {
    ModMulMod(p + q, a, f.order);
    ModAddMod(p * a, q * a, f.order);
    assert (p + q) * a == p * a + q * a;
  }

  lemma PointAddInterchange(f: Backend, a: Point, b: Point, c: Point, d: Point)
    requires f.Valid()
    ensures f.PointAdd(f.PointAdd(a, b), f.PointAdd(c, d)) == f.PointAdd(f.PointAdd(a, c), f.PointAdd(b, d))
  {
    var m := f.order;
    ModAddMod(a + b, c + d, m);
    ModAddMod(a + c, b + d, m);
  }

  /** In a group of prime order, multiplying a non-identity point by a scalar is injective. */
  lemma ScalarMulCancels(f: Backend, p: Point, a: Scalar, b: Scalar)
    requires f.Valid() && IsPrime(f.order) && f.IsPoint(p) && p != f.Identity()
    requires a < f.order && b < f.order
    requires f.ScalarMul(p, a) == f.ScalarMul(p, b)
    ensures a == b
  {
    var m := f.order;
    var d := a - b;
    assert (p * d) % m == 0 by {
      assert p * a == p * d + p * b;
      ModUnique(p * b, m, (p * b) / m, (p * b) % m);
      assert p * d == (p * a / m - p * b / m) * m;
      ModShift(p * a / m - p * b / m, m, 0);
    }
    EuclidPrime(m, p, d);
    if d > 0 {
      ModUnique(d, m, 0, d);
    } else if d < 0 {
      ModUnique(d, m, -1, d + m);
    }
  }
}
