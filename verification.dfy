/**
 * The verification status of a peer's identity key and its integer code in
 * the `verified` column of the identities table.
 */
module Verification {

  /** The trust decision recorded for a peer's identity key. */
  datatype VerifiedStatus = Default | Verified | Unverified

  /**
   * The outcome of decoding a stored code: either a status, or the fatal
   * "No such state" error that the decoder raises for any other integer.
   */
  datatype Decoded = Ok(status: VerifiedStatus) | NoSuchState(state: int)

  /** The code written to the `verified` column. */
  function ToInt(s: VerifiedStatus): (code: int)
    ensures 0 <= code <= 2
  {
    match s
    case Default => 0
    case Verified => 1
    case Unverified => 2
  }

  /** Decodes a stored code; exactly the codes 0, 1 and 2 are accepted. */
  function ForState(state: int): (r: Decoded)
    ensures r.Ok? <==> 0 <= state <= 2
    ensures r.Ok? ==> ToInt(r.status) == state
    ensures r.NoSuchState? ==> r.state == state
  {
    if state == 0 then Ok(Default)
    else if state == 1 then Ok(Verified)
    else if state == 2 then Ok(Unverified)
    else NoSuchState(state)
  }

  /** The codec is a bijection between the three statuses and {0, 1, 2}. */
  lemma StatusCodecRoundTrip(s: VerifiedStatus, t: VerifiedStatus)
    ensures ForState(ToInt(s)) == Ok(s)
    ensures ToInt(s) == ToInt(t) ==> s == t
  {
  }
}
