/**
  The error codes of the file system.
 */
module Errors {

  datatype Error =
    | NoError
    | WriteProtected
    | InvalidClusterNumber
    | LostChain
    | DiskFull
    | ReadFault
    | WriteFault
    | SectorNotFound
    | DeviceError(code: nat)
    | FileExists
    | InvalidParameter
    | InsufficientMemory

  /** The errors a transfer can end with: those the file system translates the errors of
      the device driver to, and, untranslated, any other of them. */
  predicate IsTransferError(error: Error) {
    match error
    case NoError | WriteProtected | ReadFault | WriteFault | SectorNotFound | DeviceError(_) => true
    case _ => false
  }
}
