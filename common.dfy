/** The wire constants of `ProtocolConstants` and the exception shapes of
    `ProtocolException`, shared by every other module. */
module Common {

  /** The five machine-readable error codes of the protocol. */
  datatype ErrorCode = InvalidFormat | PatientNotFound | DuplicateDocument | InvalidFasta | ServerError
  {
    /** The code as it travels on the wire. */
    function Text(): (t: string)
      ensures t != []
    {
      match this
      case InvalidFormat => "INVALID_FORMAT"
      case PatientNotFound => "PATIENT_NOT_FOUND"
      case DuplicateDocument => "DUPLICATE_DOCUMENT"
      case InvalidFasta => "INVALID_FASTA"
      case ServerError => "SERVER_ERROR"
    }
  }

  /** What a Java call can throw: a `ProtocolException` carrying a code and a
      message, or any other exception (JSON type errors, number format errors,
      null dereferences, an empty table), of which only `getMessage()` matters. */
  datatype Failure = ProtocolError(code: ErrorCode, message: string) | RuntimeError(message: string)

  /** The `NumberFormatException` of `Integer.parseInt` / `Long.parseLong` on `text`. */
  function NumberFormatError(text: string): Failure
  {
    RuntimeError("For input string: \"" + text + "\"")
  }

  const Delimiter: char := '|'

  const CmdCreatePatient: string := "CREATE_PATIENT"
  const CmdGetPatient: string := "GET_PATIENT"
  const CmdUpdatePatient: string := "UPDATE_PATIENT"
  const CmdDeletePatient: string := "DELETE_PATIENT"
  /** Not declared in `ProtocolConstants`; this is the literal the client sends. */
  const CmdGetPatientCount: string := "GET_PATIENT_COUNT"

  const RespSuccess: string := "SUCCESS"
  const RespError: string := "ERROR"

  /** The character class `[ACGTN]` used by both the FASTA validator and the aligner. */
  predicate IsNucleotide(c: char)
  {
    c == 'A' || c == 'C' || c == 'G' || c == 'T' || c == 'N'
  }
}
