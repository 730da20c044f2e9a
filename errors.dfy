/** The errors the bindings return. */
module Errors {

  datatype ScanError =
      /** ErrRustScanNotInstalled: no binary path was given and none was found on the PATH. */
    | RustScanNotInstalled
      /** ErrScanTimeout: the caller's context was done before the process exited. */
    | ScanTimeout
      /** ErrMallocFailed: the process reported that it ran out of memory. */
    | MallocFailed
      /** ErrParseOutput: the XML report could not be parsed. */
    | ParseOutput
      /** ErrResolveName: the report says a target name could not be resolved. */
    | ResolveName
      /** ErrScanCDN: more open ports were reported than the caller's limit. */
    | ScanCDN
      /** The report's own error message, as an error value. */
    | ScanFailed(msg: string)
      /** The error the process start returned. */
    | StartFailed(reason: string)
}
