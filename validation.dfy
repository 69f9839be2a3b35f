/** The length checks both `process` methods make before touching any buffer. */
module Validation {

  datatype BufferRole = InputBuffer | OutputBuffer

  /**
   * `FftError`: which buffer had the wrong length, the length expected, and the length the
   * message reports as found.
   */
  datatype FftError = WrongLength(buffer: BufferRole, expected: nat, got: nat)

  /** The `Res<()>` returned by `process`. */
  datatype Outcome = Ok | Err(error: FftError)

  /**
   * The input buffer is checked first, then the output buffer; the call succeeds exactly when
   * both have the lengths the transform was built for. The output error reports the input's
   * length as the length found, as both `process` methods do.
   */
  function CheckLengths(inputExpected: nat, inputGot: nat, outputExpected: nat, outputGot: nat): (r: Outcome)
    ensures r.Ok? <==> inputGot == inputExpected && outputGot == outputExpected
    ensures inputGot != inputExpected ==> r.error == WrongLength(InputBuffer, inputExpected, inputGot)
    ensures inputGot == inputExpected && outputGot != outputExpected
            ==> r.error == WrongLength(OutputBuffer, outputExpected, inputGot)
  {
    if inputGot != inputExpected then Err(WrongLength(InputBuffer, inputExpected, inputGot))
    else if outputGot != outputExpected then Err(WrongLength(OutputBuffer, outputExpected, inputGot))
    else Ok
  }
}
