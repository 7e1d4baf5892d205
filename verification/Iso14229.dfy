/** The response codes the UDS code returns (ISO 14229-1:2020, annex A.1), and the library's own misuse error. */
module Iso14229 {

  datatype Nrc =
    | Positive
    | GeneralReject
    | SubFunctionNotSupported
    | ResponseTooLong
    | ConditionsNotCorrect
    | RequestSequenceError
    | RequestOutOfRange
    | SecurityAccessDenied
    | UploadDownloadNotAccepted
    | GeneralProgrammingFailure
    | ServiceNotSupported
    | Misuse
    | Errno(code: int)

  type byte = bv8
}
