/** Optional values and results. A Java exception that the resolver lets
    escape becomes an `Err` carrying the kind of fault that was thrown. */
module Outcome {

  datatype Option<+T> = None | Some(value: T)

  /** The runtime exceptions the modelled code can raise. */
  datatype Fault =
    | ClassCast          // a cast of record data to the wrong rdata class
    | IndexOutOfBounds   // List.get, array indexing or String.substring out of range
    | UnknownHost        // InetAddress.getByName could not produce an address
    | NumberFormat       // Integer.parseInt rejected its argument

  datatype Result<+T> = Ok(value: T) | Err(fault: Fault)
}
