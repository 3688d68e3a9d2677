/** Shared value types of the version ledger: the 64-bit unsigned integers of
    the database's vnum column, optional values, and the results of store
    operations with the error kinds the Go code returns. */
module Base {

  const Modulus: int := 0x1_0000_0000_0000_0000

  /** Go's uint64. */
  newtype uint64 = x: int | 0 <= x < 0x1_0000_0000_0000_0000

  datatype Option<+T> = None | Some(value: T)

  /** The errors the ledger reports. Storage-layer failures are not modelled. */
  datatype Error =
    | NotFound              // "<domain> '<name>' not found"
    | VersionNotFound       // "version '<v>' of <domain> '<name>' not found"
    | NoKnownVersions       // "no known versions for <domain> '<name>'"
    | Conflict              // a PRIMARY KEY / UNIQUE violation on INSERT
    | MalformedVersion      // strconv.ParseUint failed inside vnum
    | NoSatisfactoryService // ParseVcap found no tagged service with the subkey
    | MalformedServices     // VCAP_SERVICES is not a JSON object of service lists

  datatype Result<+T> = Ok(value: T) | Err(error: Error)
}
