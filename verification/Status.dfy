/** The kernel's return codes that the modelled routines use. */
module Status {
  datatype Ret =
    | NoError
    | OutOfRange
    | NotFound
    | Unavailable
    | MemAllocError
    | Malformed
    | Unsupported
}
