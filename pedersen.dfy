/**
  Pedersen verifiable secret sharing: the dealer commits to each coefficient pair (a_i, b_i) of the
  secret polynomial and of a blinding polynomial as `g * a_i + h * b_i`, and also returns the Feldman
  commitments `g * a_i`, so that both verifiers are available to later protocols.
*/
module Pedersen {
  import opened Wrappers
  import opened Algebra
  import opened Shares
  import opened Feldman

  /** The verifier for Pedersen shares: the blinding generator h, the commitments `g * a_i + h * b_i`,
      and the Feldman verifier for g and the commitments `g * a_i`. */
  datatype PedersenVerifier = PedersenVerifier(
    generator: Point,
    commitments: seq<Point>,
    feldmanVerifier: FeldmanVerifier)

  /** What `split_secret` returns. */
  datatype PedersenResult = PedersenResult(
    blinding: Scalar,
    blindShares: seq<Share>,
    secretShares: seq<Share>,
    verifier: PedersenVerifier)

  /** The verifier commits to the secret coefficients `a` and the blinding coefficients `b`. */
  ghost predicate CommitsTo(f: Backend, v: PedersenVerifier, a: seq<Scalar>, b: seq<Scalar>)
    requires f.Valid()
  {
    Feldman.CommitsTo(f, v.feldmanVerifier, a) &&
    |v.commitments| == |a| == |b| &&
    forall i :: 0 <= i < |a| ==>
      v.commitments[i] == f.PointAdd(v.feldmanVerifier.commitments[i], f.ScalarMul(v.generator, b[i]))
  }

  /**
    Split a secret, modelling `Pedersen::<T, N>::split_secret` with T = `threshold`.

    What the source draws from its random-number generator is passed in: the scalar `t` behind the
    default blinding generator, the default blinding value `drawnBlinding`, and the two outputs of
    the Shamir split of the secret and of the blinding value (shares and polynomial, whose
    coefficients are given as arrays of length T). `paramCheck` is the outcome of the Shamir
    parameter check for T and N.
  */
  method SplitSecret<E>(
    f: Backend,
    threshold: nat,
    paramCheck: Outcome<E>,
    blinding: Option<Scalar>,
    shareGenerator: Option<Point>,
    blindFactorGenerator: Option<Point>,
    t: Scalar,
    drawnBlinding: Scalar,
    secretShares: seq<Share>,
    secretPolynomial: array<Scalar>,
    blindShares: seq<Share>,
    blindingPolynomial: array<Scalar>)
    returns (r: Result<PedersenResult, E>)
    requires f.Valid()
    requires secretPolynomial.Length == threshold && blindingPolynomial.Length == threshold
    requires shareGenerator.Some? ==> f.IsPoint(shareGenerator.value)
    requires blindFactorGenerator.Some? ==> f.IsPoint(blindFactorGenerator.value)
    // a failed parameter check is returned unchanged, and only then is there no result
    ensures paramCheck.Fail? <==> r.Failure?
    ensures paramCheck.Fail? ==> r == Failure(paramCheck.error)
    // the generators and the blinding value: the supplied ones, else the defaults
    ensures r.Success? ==>
      r.value.verifier.feldmanVerifier.generator
        == (if shareGenerator.Some? then shareGenerator.value else f.Generator())
    ensures r.Success? ==>
      r.value.verifier.generator
        == (if blindFactorGenerator.Some? then blindFactorGenerator.value else f.ScalarMul(f.Generator(), t))
    ensures r.Success? ==> r.value.blinding == (if blinding.Some? then blinding.value else drawnBlinding)
    ensures r.Success? ==> r.value.secretShares == secretShares && r.value.blindShares == blindShares
    // one Feldman and one Pedersen commitment per coefficient
    ensures r.Success? ==>
      var v := r.value.verifier;
      |v.feldmanVerifier.commitments| == threshold && |v.commitments| == threshold &&
      (forall i :: 0 <= i < threshold ==>
        v.feldmanVerifier.commitments[i] == f.ScalarMul(v.feldmanVerifier.generator, secretPolynomial[i])) &&
      (forall i :: 0 <= i < threshold ==>
        v.commitments[i] == f.PointAdd(v.feldmanVerifier.commitments[i], f.ScalarMul(v.generator, blindingPolynomial[i])))
    // both verifiers hold canonical group elements
    ensures r.Success? ==> r.value.verifier.feldmanVerifier.Valid(f)
    ensures r.Success? ==>
      forall i :: 0 <= i < |r.value.verifier.commitments| ==> f.IsPoint(r.value.verifier.commitments[i])
    // end to end: the Feldman verifier accepts every share that lies on the secret polynomial
    ensures r.Success? ==>
      forall share: Share ::
        f.fromBytes(share.value) == Some(Evaluate(f, secretPolynomial[..], IdentifierOf(f, share), threshold))
        ==> r.value.verifier.feldmanVerifier.Accepts(f, share)
  {
    if paramCheck.Fail? {
      return Failure(paramCheck.error);
    }

    var g := shareGenerator.GetOr(f.Generator());
    var h := blindFactorGenerator.GetOr(f.ScalarMul(f.Generator(), t));
    var chosenBlinding := blinding.GetOr(drawnBlinding);

    var feldmanCommitments := new Point[threshold];
    var pedersenCommitments := new Point[threshold];
    for i := 0 to threshold
      invariant forall j :: 0 <= j < i ==> feldmanCommitments[j] == f.ScalarMul(g, secretPolynomial[j])
      invariant forall j :: 0 <= j < i ==>
        pedersenCommitments[j] == f.PointAdd(feldmanCommitments[j], f.ScalarMul(h, blindingPolynomial[j]))
    {
      var gi := f.ScalarMul(g, secretPolynomial[i]);
      var hi := f.ScalarMul(h, blindingPolynomial[i]);
      feldmanCommitments[i] := gi;
      pedersenCommitments[i] := f.PointAdd(gi, hi);
    }

    var feldmanVerifier := FeldmanVerifier(g, feldmanCommitments[..]);
    var verifier := PedersenVerifier(h, pedersenCommitments[..], feldmanVerifier);
    r := Success(PedersenResult(chosenBlinding, blindShares, secretShares, verifier));

    forall share: Share |
      f.fromBytes(share.value) == Some(Evaluate(f, secretPolynomial[..], IdentifierOf(f, share), threshold))
      ensures feldmanVerifier.Accepts(f, share)
    {
      Completeness(f, feldmanVerifier, secretPolynomial[..], share);
    }
  }

  /** The sum of the Pedersen commitments weighted by the powers of x opens to the two polynomials'
      values at x: `g * a(x) + h * b(x)`. */
  lemma {:induction false} CommittedPairSum(f: Backend, v: PedersenVerifier, a: seq<Scalar>, b: seq<Scalar>, x: Scalar, k: nat)
    requires f.Valid() && CommitsTo(f, v, a, b) && k <= |a|
    ensures CommitmentSum(f, v.commitments, x, k) ==
      f.PointAdd(f.ScalarMul(v.feldmanVerifier.generator, Evaluate(f, a, x, k)), f.ScalarMul(v.generator, Evaluate(f, b, x, k)))
  {
    var g, h := v.feldmanVerifier.generator, v.generator;
    if k == 0 {
      ZeroLaws(f, g, 0);
      ZeroLaws(f, h, 0);
      IdentityLaws(f, f.Identity());
    } else {
      var y := Pow(f, x, k - 1);
      var ga, hb := f.ScalarMul(g, a[k - 1]), f.ScalarMul(h, b[k - 1]);
      CommittedPairSum(f, v, a, b, x, k - 1);
      ScalarMulDistributesOverPointAdd(f, ga, hb, y);
      ScalarMulAssociates(f, g, a[k - 1], y);
      ScalarMulAssociates(f, h, b[k - 1], y);
      PointAddInterchange(f, f.ScalarMul(g, Evaluate(f, a, x, k - 1)), f.ScalarMul(h, Evaluate(f, b, x, k - 1)),
        f.ScalarMul(g, f.Mul(a[k - 1], y)), f.ScalarMul(h, f.Mul(b[k - 1], y)));
      ScalarMulDistributesOverAdd(f, g, Evaluate(f, a, x, k - 1), f.Mul(a[k - 1], y));
      ScalarMulDistributesOverAdd(f, h, Evaluate(f, b, x, k - 1), f.Mul(b[k - 1], y));
    }
  }

  /** Pedersen opening: a secret share a(x) and a blinding share b(x) at the same point satisfy
      `g * a(x) + h * b(x) == sum_i commitments[i] * x^i`. */
  lemma PedersenOpening(f: Backend, v: PedersenVerifier, a: seq<Scalar>, b: seq<Scalar>, x: Scalar)
    requires f.Valid() && CommitsTo(f, v, a, b)
    ensures f.PointAdd(f.ScalarMul(v.feldmanVerifier.generator, Evaluate(f, a, x, |a|)),
                       f.ScalarMul(v.generator, Evaluate(f, b, x, |b|)))
      == CommitmentSum(f, v.commitments, x, |v.commitments|)
  {
    CommittedPairSum(f, v, a, b, x, |a|);
  }
}
