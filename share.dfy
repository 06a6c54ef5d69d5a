/**
  A Shamir share as the verifiers see it: the participant's identifier and the encoded field value.
  The share type itself (its byte layout) is not part of this model; only these two accessors are.
*/
module Shares {
  import opened Algebra

  datatype Share = Share(identifier: byte, value: seq<byte>)
}
