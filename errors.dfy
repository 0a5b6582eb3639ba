/** The error values the cache core returns, and the reasons it can panic. */
module Errors {

  /** Why a call panics instead of returning. */
  datatype PanicReason =
    | NilAdapter                      // Register with a nil adapter
    | DuplicateAdapter(name: string)  // Register with a name that is already taken
    | NotAMap                         // a type assertion to map[string]interface{} fails
    | NilMapWrite                     // assignment to an entry of a nil map
    | NotAStruct                      // reflect NumField on a value that is not a struct
    | IllegalBase                     // strconv formatting in a base outside 2..36
    | NilType                         // reflect Kind of the type of a nil interface
    | ZeroValue                       // reflect NumField on the zero Value (a nil pointer's Elem)

  /** An error value as returned by an operation (or a panic, which unwinds the call). */
  datatype Error =
    | NotIntType                  // counter operation on a value that is not int-type
    | LessThanZero                // decrement of an unsigned zero
    | NoSuchFile                  // os error: the file does not exist
    | Undecodable                 // gob could not decode the file
    | ParameterEmpty              // HMSet with an empty key or nil data
    | ParsingFailed               // HMSet or HMScan with the wrong kind of argument
    | DoesNotExist                // HMGet / HGet on a missing key or field
    | IsEmpty                     // HGetAll on a missing key
    | GetFailed                   // HGetAll when Get fails
    | DataMustBeMap               // HSet with data that is not a map
    | InvalidPath                 // os.RemoveAll of a path whose last element is "."
    | UnknownAdapter(name: string)
    | Panic(reason: PanicReason)

  /** A result or the error that replaced it; a panic is the error Panic(..). */
  datatype Outcome<+T> = Ok(value: T) | Fail(err: Error)
  {
    predicate Panicked()
    {
      Fail? && err.Panic?
    }
  }
}
