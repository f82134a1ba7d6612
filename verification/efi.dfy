/** UEFI status codes returned by the boot loader, the kernel stub and the
    watchdog drivers (only the codes those return are listed). */
module Efi {

  datatype Status =
    | Success
    | InvalidParameter
    | Unsupported
    | BufferTooSmall
    | DeviceError
    | NotFound
    | IncompatibleVersion
    | OutOfResources
    | Timeout
  {
    /** `EFI_ERROR(status)`: every status except success. */
    predicate IsError() { !Success? }
  }
}
