/**
  Feldman verifiable secret sharing: a verifier holds a generator and one commitment
  `generator * a_j` per coefficient of the secret polynomial, and accepts a share (x, s) when
  `generator * s == sum_j commitments[j] * x^j`.
*/
module Feldman {
  import opened Wrappers
  import opened Algebra
  import opened Shares

  /** x^k in the scalar field, built as the running multiplier of `verify` builds it. */
  function Pow(f: Backend, x: Scalar, k: nat): Scalar
    requires f.Valid()
  {
    if k == 0 then f.One() else f.Mul(Pow(f, x, k - 1), x)
  }

  /** The group element `sum_{j < k} cs[j] * x^j`. */
  function CommitmentSum(f: Backend, cs: seq<Point>, x: Scalar, k: nat): Point
    requires f.Valid() && k <= |cs|
  {
    if k == 0 then f.Identity()
    else f.PointAdd(CommitmentSum(f, cs, x, k - 1), f.ScalarMul(cs[k - 1], Pow(f, x, k - 1)))
  }

  /** The field element `sum_{j < k} coeffs[j] * x^j`: a polynomial evaluated at x. */
  function Evaluate(f: Backend, coeffs: seq<Scalar>, x: Scalar, k: nat): Scalar
    requires f.Valid() && k <= |coeffs|
  {
    if k == 0 then 0
    else f.Add(Evaluate(f, coeffs, x, k - 1), f.Mul(coeffs[k - 1], Pow(f, x, k - 1)))
  }

  /** The share's identifier as a field element (`F::from(identifier as u64)`). */
  function IdentifierOf(f: Backend, share: Share): Scalar
    requires f.Valid()
  {
    f.FromInt(share.identifier as nat)
  }

  datatype FeldmanVerifier = FeldmanVerifier(generator: Point, commitments: seq<Point>) {

    /** Every stored group element is a canonical element of the backend's group. */
    ghost predicate Valid(f: Backend) {
      f.Valid() && f.IsPoint(generator) && forall j :: 0 <= j < |commitments| ==> f.IsPoint(commitments[j])
    }

    /** The share's value decodes to s and `generator * s == sum_j commitments[j] * x^j`. */
    predicate Accepts(f: Backend, share: Share)
      requires f.Valid()
    {
      match f.fromBytes(share.value)
      case None => false
      case Some(s) =>
        f.ScalarMul(generator, s) == CommitmentSum(f, commitments, IdentifierOf(f, share), |commitments|)
    }

    /** Check whether the share is valid according to this verifier. */
    method Verify(f: Backend, share: Share) returns (ok: bool)
      requires Valid(f) && |commitments| >= 1
      ensures f.fromBytes(share.value).None? ==> !ok
      ensures ok <==> Accepts(f, share)
    {
      var decoded := f.fromBytes(share.value);
      if decoded.None? {
        return false;
      }
      var s := decoded.value;
      var x := IdentifierOf(f, share);
      var i := f.One();
      var rhs := commitments[0];
      IdentityLaws(f, rhs);
      for k := 1 to |commitments|
        invariant i == Pow(f, x, k - 1)
        invariant rhs == CommitmentSum(f, commitments, x, k)
      {
        i := f.Mul(i, x);
        rhs := f.PointAdd(rhs, f.ScalarMul(commitments[k], i));
      }
      var lhs := f.ScalarMul(f.Neg(generator), s);
      var res := f.PointAdd(lhs, rhs);
      VerifyEquation(f, generator, s, rhs);
      ok := res == f.Identity();
    }
  }

  /** The verifier commits to `coeffs`: one commitment `generator * coeffs[j]` per coefficient. */
  ghost predicate CommitsTo(f: Backend, v: FeldmanVerifier, coeffs: seq<Scalar>)
    requires f.Valid()
  {
    |v.commitments| == |coeffs| &&
    forall j :: 0 <= j < |coeffs| ==> v.commitments[j] == f.ScalarMul(v.generator, coeffs[j])
  }

  /** Committing coefficient by coefficient commits to the evaluation: the sum of the committed
      terms is the generator times the polynomial's value. */
  lemma {:induction false} CommittedSum(f: Backend, g: Point, coeffs: seq<Scalar>, cs: seq<Point>, x: Scalar, k: nat)
    requires f.Valid() && |cs| == |coeffs| && k <= |cs|
    requires forall j :: 0 <= j < |cs| ==> cs[j] == f.ScalarMul(g, coeffs[j])
    ensures CommitmentSum(f, cs, x, k) == f.ScalarMul(g, Evaluate(f, coeffs, x, k))
  {
    if k > 0 {
      var y := Pow(f, x, k - 1);
      CommittedSum(f, g, coeffs, cs, x, k - 1);
      ScalarMulAssociates(f, g, coeffs[k - 1], y);
      ScalarMulDistributesOverAdd(f, g, Evaluate(f, coeffs, x, k - 1), f.Mul(coeffs[k - 1], y));
    }
  }

  /** Completeness: a share whose value is the committed polynomial at its identifier is accepted. */
  lemma Completeness(f: Backend, v: FeldmanVerifier, coeffs: seq<Scalar>, share: Share)
    requires f.Valid() && CommitsTo(f, v, coeffs)
    requires f.fromBytes(share.value) == Some(Evaluate(f, coeffs, IdentifierOf(f, share), |coeffs|))
    ensures v.Accepts(f, share)
  {
    CommittedSum(f, v.generator, coeffs, v.commitments, IdentifierOf(f, share), |coeffs|);
  }

  /** Soundness against tampering: in a group of prime order with a non-identity generator, once a
      share is accepted, no other field value under the same identifier is accepted. */
  lemma TamperedValueRejected(f: Backend, v: FeldmanVerifier, share: Share, forged: Share)
    requires v.Valid(f) && IsPrime(f.order) && v.generator != f.Identity()
    requires v.Accepts(f, share)
    requires forged.identifier == share.identifier
    requires f.fromBytes(forged.value).Some? && f.fromBytes(forged.value) != f.fromBytes(share.value)
    ensures !v.Accepts(f, forged)
  {
    var s, t := f.fromBytes(share.value).value, f.fromBytes(forged.value).value;
    if v.Accepts(f, forged) {
      ScalarMulCancels(f, v.generator, s, t);
      assert false;
    }
  }

  /** At the point 0 only the constant term contributes to the commitment sum. */
  lemma {:induction false} CommitmentSumAtZero(f: Backend, cs: seq<Point>, k: nat)
    requires f.Valid() && 1 <= k <= |cs| && f.IsPoint(cs[0])
    ensures CommitmentSum(f, cs, 0, k) == cs[0]
  {
    if k > 1 {
      CommitmentSumAtZero(f, cs, k - 1);
      ZeroLaws(f, cs[k - 1], Pow(f, 0, k - 2));
      IdentityLaws(f, cs[0]);
    } else {
      IdentityLaws(f, cs[0]);
    }
  }

  /** For identifier 0 the accumulator stays `commitments[0]`: acceptance is `generator * s == commitments[0]`. */
  lemma ZeroIdentifier(f: Backend, v: FeldmanVerifier, share: Share)
    requires v.Valid(f) && |v.commitments| >= 1 && share.identifier == 0
    ensures v.Accepts(f, share) <==>
      f.fromBytes(share.value).Some? && f.ScalarMul(v.generator, f.fromBytes(share.value).value) == v.commitments[0]
  {
    CommitmentSumAtZero(f, v.commitments, |v.commitments|);
  }
}
