# Feldman share verification and Pedersen commitment construction (vsss-rs)

This project models two pieces of the verifiable-secret-sharing engine of vsss-rs, and proves
properties of them in Dafny.

- **Feldman share verification** (`FeldmanVerifier::verify`). A Feldman verifier holds a generator
  `g` and T commitments `c_j = g * a_j`, one for each coefficient of the secret polynomial. It checks
  a share `(x, s)` by building `rhs = sum_j c_j * x^j` in a loop. The loop keeps a running power of
  x. The share is accepted when `-g * s + rhs` is the identity.
- **Pedersen dealing** (`Pedersen::split_secret`). The dealer does four things:
  - It runs the parameter check.
  - It picks the share generator `g` and the blinding generator `h`, and the blinding value. Each
    falls back to a default when none is supplied.
  - It fills two arrays in place, `feldman[i] = g * a_i` and `pedersen[i] = g * a_i + h * b_i`.
  - It assembles the nested `PedersenResult` / `PedersenVerifier` / `FeldmanVerifier` record.

## The algebraic model

The field and the group are replaced by the discrete-logarithm model (module `Algebra`):

- A scalar is an integer modulo the group order.
- A group element is held as its discrete logarithm to the base of the default generator, also
  modulo the order.
- Group addition is then addition mod the order, and `G * s` is multiplication mod the order.
- The identity is 0, the default generator is 1, and negation is `order - x`.

The Rust type parameter `F: PrimeField` becomes a value of type `Backend`, which holds two things:
the order, and the field's byte decoder `fromBytes`. The decoder is the library's `bytes_to_field`,
kept abstract. It may return `None`; a `Some` is always a canonical element (`Backend.Valid`). The
laws the protocols use are proved from these definitions, not assumed: distributivity,
associativity, the verification equation, and cancellation in a prime-order group (through
Euclid's lemma).

Modules:

- `Wrappers`: Option, Outcome and Result.
- `Algebra`: the backend and its laws.
- `Shares`: a share, seen as an identifier byte plus value bytes.
- `Feldman`: `src/no_std/verifier/feldman.rs`.
- `Pedersen`: `src/no_std/pedersen.rs`.

`Verify` is a method on the `FeldmanVerifier` datatype. It has the loop and its invariants (the
power `i == x^(k-1)`, and `rhs` equal to the first k terms of the sum). It is proved against the
spec predicate `Accepts`, which says `g * s == sum_j c_j * x^j`. `SplitSecret` allocates the two
commitment arrays and fills them index by index. Each random draw of the source is a parameter:
the scalar `t`, the default blinding value, and the output of the two Shamir splits (shares, and
polynomial coefficients as arrays of length T). The result of the Shamir parameter check is a
parameter (`paramCheck`).

Where the design description and the code differ, the model follows the code:

- The code sums `c_j * x^j` with a running power, not by Horner's rule.
- `verify` itself does not reject identifier 0. Lemma `ZeroIdentifier` states what it does instead.

## Model

| member | source | states |
|---|---|---|
| `Feldman.FeldmanVerifier.Verify` | src/no_std/verifier/feldman.rs:32-63 | It requires T >= 1, because `commitments[0]` is read unconditionally, and it changes nothing. It returns false when the value bytes do not decode. It returns true exactly when the decoded value s satisfies `generator * s == sum_{j<T} commitments[j] * x^j`, with x the identifier reduced into the field. The loop invariant: after k commitments, the multiplier is `x^(k-1)` and the accumulator is the sum of the first k terms. |
| `Algebra.VerifyEquation` | src/no_std/verifier/feldman.rs:58-62 | `-g * s + rhs` is the identity if and only if `g * s == rhs`. This turns the source's check into the equation `Accepts` states. |
| `Feldman.CommittedSum` | src/no_std/verifier/feldman.rs:49-56 | When every commitment is `g * a_j`, the first k terms of the commitment sum equal `g` times the polynomial a evaluated at x over its first k coefficients. |
| `Feldman.Completeness` | src/no_std/verifier/feldman.rs:50-62 | If `commitments[j] == generator * a_j` for every j, and the share's value decodes to `sum_j a_j * x^j`, the share is accepted. |
| `Algebra.ScalarMulCancels` | src/no_std/verifier/feldman.rs:58-62 | In a group of prime order, `p * a == p * b` with p not the identity and a, b canonical implies `a == b`. |
| `Feldman.TamperedValueRejected` | src/no_std/verifier/feldman.rs:58-62 | Prime order and a non-identity generator are assumed. Once a share is accepted, a share with the same identifier whose value decodes to a different field element is rejected. So at most one value is accepted per identifier. |
| `Feldman.CommitmentSumAtZero` | src/no_std/verifier/feldman.rs:49-56 | At x = 0 every term after the first vanishes, so the accumulator is `commitments[0]`. |
| `Feldman.ZeroIdentifier` | src/no_std/verifier/feldman.rs:39-56 | For identifier 0, a share is accepted exactly when its value decodes to s with `generator * s == commitments[0]`. |
| `Pedersen.SplitSecret` | src/no_std/pedersen.rs:115-166 | A failed parameter check is returned as that same error, and only then is there no result. Otherwise: `g` is the supplied share generator, else the default generator. `h` is the supplied blinding generator, else `generator * t`. The blinding is the supplied value, else the drawn one. The shares are passed through. There are exactly T Feldman and T Pedersen commitments, with `feldman[i] == g * a_i` and `pedersen[i] == feldman[i] + h * b_i`. The Feldman and Pedersen generators are g and h, all points are canonical, and the Feldman verifier accepts every share whose value is the secret polynomial at its identifier. |
| `Pedersen.CommittedPairSum` | src/no_std/pedersen.rs:143-151 | For commitments `g * a_i + h * b_i`, the first k terms of the commitment sum equal `g * a(x) + h * b(x)` over the first k coefficients. |
| `Pedersen.PedersenOpening` | src/no_std/pedersen.rs:143-151 | The Pedersen commitments built by the loop open to the share pair at any point x: `g * a(x) + h * b(x) == sum_i pedersen[i] * x^i`. This is the equation a Pedersen verifier checks. |

## Left out

- Real elliptic-curve and finite-field arithmetic is replaced by the discrete-log model modulo the order. The byte encodings (`to_bytes`, `from_repr`) are left out. `bytes_to_field` is an abstract decoder held in `Backend`, because `src/util.rs` is not part of this model.
- The share type is seen only through its identifier byte and its value bytes, because the share's own source is not part of this model. The identifier is mapped into the field as `identifier mod order`, as `F::from(u64)` does.
- Randomness is left out. The ChaCha seeding and the `F::random` draws become the parameters `t` and `drawnBlinding`. The model does not capture that `t` is drawn even when a blinding generator is supplied, nor the order in which the draws consume the generator.
- `Shamir::get_shares_and_polynomial` is not part of this model. Its shares and polynomials are parameters. So the model states nothing about how the secret and the blinding value relate to the supplied polynomials, and the `secret` argument is not modelled separately.
- `Shamir::check_params` is not part of this model. Its result is the `paramCheck` parameter, generic over the error type.
- `Pedersen::combine_shares` and `Pedersen::combine_shares_group` are left out. They only delegate to Shamir combination, which is not part of this model.
- `PedersenVerifier::verify` is not part of this model. `PedersenOpening` states the equation that such a check relies on.
- `serialize_shares_array` and `deserialize_shares_array` are left out. They are serde visitor plumbing.
- `src/standard.rs` is left out. It is serialization glue over serializer traits that are not shown.
- Constant-time behaviour is left out: `CtOption`, `is_identity().unwrap_u8()`, and the planned multi-scalar multiplication in the comment. Timing cannot be expressed here.
- Hiding and binding security, and zeroization of secrets, are left out. They are computational or memory-residue properties.
- The `PhantomData` marker field is left out. It carries no data.
